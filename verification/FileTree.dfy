/** A directory tree that holds objects: for each one a body file and a sidecar, in directories that
    mirror the segments of its key. An object exists exactly when its sidecar does. */
module FileTree {
  import opened Wrappers
  import opened KeyOrder
  import opened Utf8
  import opened Paths
  import opened Metadata
  import opened SegmentCodec
  import S = Storage

  /** Names from the root down. */
  type Path = seq<string>

  datatype File = Body(data: seq<Byte>) | Sidecar(metadata: TextMap, version: S.Version) | Scratch

  datatype Tree = Tree(dirs: set<Path>, files: map<Path, File>)

  /** The name of a segment that some key can have. */
  predicate IsName(name: string) {
    Decoded(name).Some? && '/' !in Decoded(name).value
  }

  predicate AreNames(names: seq<string>) {
    forall i :: 0 <= i < |names| ==> IsName(names[i])
  }

  function SegmentsOf(names: seq<string>): (segments: seq<string>)
    requires AreNames(names)
    ensures |segments| == |names| && forall i :: 0 <= i < |names| ==> segments[i] == Decoded(names[i]).value
  {
    seq(|names|, i requires 0 <= i < |names| => Decoded(names[i]).value)
  }

  /** The keys the backend accepts. */
  predicate Storable(key: Key) {
    key != "" && forall i :: 0 <= i < |Split(key, '/')| ==> Encoded(Split(key, '/')[i]).Some?
  }

  function NamesOf(key: Key): (names: seq<string>)
    requires Storable(key)
    ensures |names| == |Split(key, '/')|
    ensures forall i :: 0 <= i < |names| ==> Encoded(Split(key, '/')[i]) == Some(names[i])
  {
    seq(|Split(key, '/')|, i requires 0 <= i < |Split(key, '/')| => Encoded(Split(key, '/')[i]).value)
  }

  lemma NamesAreNames(key: Key)
    requires Storable(key)
    ensures AreNames(NamesOf(key)) && SegmentsOf(NamesOf(key)) == Split(key, '/')
  {
    var names, segments := NamesOf(key), Split(key, '/');
    forall i | 0 <= i < |names|
      ensures Decoded(names[i]) == Some(segments[i])
    {
      CodecIsBijection(segments[i], names[i]);
    }
  }

  /** The stems of objects: the path of names of a key. */
  predicate IsStem(names: seq<string>) {
    names != [] && AreNames(names) && names != ["%"]
  }

  function KeyOf(names: seq<string>): Key
    requires IsStem(names)
  {
    Join(SegmentsOf(names), '/')
  }

  /** Stems and storable keys correspond one to one. */
  lemma StemOfKey(key: Key)
    requires Storable(key)
    ensures IsStem(NamesOf(key)) && KeyOf(NamesOf(key)) == key
  {
    NamesAreNames(key);
    JoinSplit(key, '/');
    CodecIsBijection("", "%");
  }

  lemma KeyOfStem(names: seq<string>)
    requires IsStem(names)
    ensures Storable(KeyOf(names)) && NamesOf(KeyOf(names)) == names
  {
    var segments := SegmentsOf(names);
    SplitJoin(segments, '/');
    forall i | 0 <= i < |names|
      ensures Encoded(segments[i]) == Some(names[i])
    {
      CodecIsBijection(segments[i], names[i]);
    }
    if KeyOf(names) == "" {
      assert segments == [""];
      CodecIsBijection("", names[0]);
    }
  }

  function Last(p: Path): string
    requires p != []
  {
    p[|p| - 1]
  }

  function Parent(p: Path): Path
    requires p != []
  {
    p[..|p| - 1]
  }

  function BodyPath(stem: Path): Path
    requires stem != []
  {
    Parent(stem) + [Last(stem) + BODY_SUFFIX]
  }

  function SidecarPath(stem: Path): Path
    requires stem != []
  {
    Parent(stem) + [Last(stem) + SIDECAR_SUFFIX]
  }

  predicate Hidden(name: string) {
    name != "" && name[0] == '.'
  }

  predicate IsBodyPath(p: Path) {
    p != [] && EndsWith(Last(p), BODY_SUFFIX) && IsStem(Parent(p) + [Last(p)[..|Last(p)| - 4]])
  }

  predicate IsSidecarPath(p: Path) {
    p != [] && EndsWith(Last(p), SIDECAR_SUFFIX) && IsStem(SidecarStem(p))
  }

  function SidecarStem(p: Path): Path
    requires p != [] && EndsWith(Last(p), SIDECAR_SUFFIX)
  {
    Parent(p) + [Last(p)[..|Last(p)| - 5]]
  }

  lemma NamesAreSafe(names: seq<string>)
    requires AreNames(names)
    ensures forall i :: 0 <= i < |names| ==> SafeName(names[i])
  {
    forall i | 0 <= i < |names|
      ensures SafeName(names[i])
    {
      CodecIsBijection(Decoded(names[i]).value, names[i]);
      EncodedIsSafe(Decoded(names[i]).value);
    }
  }

  /** Sidecar paths and stems correspond one to one. */
  lemma SidecarOfStem(stem: Path)
    requires IsStem(stem)
    ensures IsSidecarPath(SidecarPath(stem)) && SidecarStem(SidecarPath(stem)) == stem
    ensures IsBodyPath(BodyPath(stem)) && !Hidden(Last(SidecarPath(stem))) && !Hidden(Last(BodyPath(stem)))
  {
    NamesAreSafe(stem);
    var name := Last(stem);
    assert (name + SIDECAR_SUFFIX)[..|name|] == name && (name + SIDECAR_SUFFIX)[|name|..] == SIDECAR_SUFFIX;
    assert (name + BODY_SUFFIX)[..|name|] == name && (name + BODY_SUFFIX)[|name|..] == BODY_SUFFIX;
    assert Parent(stem) + [name] == stem;
    assert Parent(SidecarPath(stem)) == Parent(stem) && Parent(BodyPath(stem)) == Parent(stem);
  }

  lemma StemOfSidecar(p: Path)
    requires IsSidecarPath(p)
    ensures SidecarPath(SidecarStem(p)) == p
  {
    var name := Last(p);
    assert name == name[..|name| - 5] + SIDECAR_SUFFIX;
    assert p == Parent(p) + [name];
    assert Parent(SidecarStem(p)) == Parent(p);
  }

  /** Bodies and sidecars of different objects are different files. */
  lemma PathsDiffer(a: Path, b: Path)
    requires a != [] && b != []
    ensures BodyPath(a) != SidecarPath(b)
    ensures BodyPath(a) == BodyPath(b) ==> a == b
    ensures SidecarPath(a) == SidecarPath(b) ==> a == b
  {
    var x, y := Last(a), Last(b);
    assert Parent(a) + [x] == a && Parent(b) + [y] == b;
    assert Last(BodyPath(a)) == x + BODY_SUFFIX && Last(SidecarPath(a)) == x + SIDECAR_SUFFIX;
    assert Last(BodyPath(b)) == y + BODY_SUFFIX && Last(SidecarPath(b)) == y + SIDECAR_SUFFIX;
    assert (x + BODY_SUFFIX)[|x| + 3] == 'j' && (y + SIDECAR_SUFFIX)[|y| + 4] == 'a';
    assert Parent(BodyPath(a)) == Parent(a) && Parent(SidecarPath(a)) == Parent(a);
    assert Parent(BodyPath(b)) == Parent(b) && Parent(SidecarPath(b)) == Parent(b);
    assert (x + BODY_SUFFIX)[..|x|] == x && (y + BODY_SUFFIX)[..|y|] == y;
    assert (x + SIDECAR_SUFFIX)[..|x|] == x && (y + SIDECAR_SUFFIX)[..|y|] == y;
  }

  /** A path, as a file system that ignores the case of ASCII letters takes it. */
  function FoldPath(p: Path): (f: Path)
    ensures |f| == |p| && forall i :: 0 <= i < |p| ==> f[i] == Fold(p[i])
  {
    seq(|p|, i requires 0 <= i < |p| => Fold(p[i]))
  }

  lemma FoldedStem(stem: Path, suffix: string)
    requires stem != []
    ensures var p := FoldPath(Suffixed(stem, suffix));
            |p| == |stem| && p[|p| - 1] == Fold(Last(stem) + suffix) && forall i :: 0 <= i < |p| - 1 ==> p[i] == Fold(stem[i])
  {
    var p := Suffixed(stem, suffix);
    assert forall i :: 0 <= i < |p| - 1 ==> p[i] == stem[i];
  }

  /** The names of the segments. */
  predicate NamesFor(segments: seq<string>, names: seq<string>) {
    names != [] && |segments| == |names| && forall i :: 0 <= i < |names| ==> Encoded(segments[i]) == Some(names[i])
  }

  function Suffixed(stem: Path, suffix: string): Path
    requires stem != []
  {
    Parent(stem) + [Last(stem) + suffix]
  }

  predicate IsSuffix(suffix: string) {
    suffix == "%obj" || suffix == "%meta"
  }

  lemma {:induction false} NamesDecide(p: seq<string>, q: seq<string>, x: Path, y: Path)
    requires NamesFor(p, x) && NamesFor(q, y) && |x| == |y| && forall i :: 0 <= i < |x| ==> Fold(x[i]) == Fold(y[i])
    ensures p == q
  {
    hide Encoded, Fold;
    forall i | 0 <= i < |p|
      ensures p[i] == q[i]
    {
      assert Fold(x[i]) == Fold(y[i]);
      EncodedFolds(p[i], q[i]);
    }
  }

  lemma SuffixedDecide(p: seq<string>, q: seq<string>, x: Path, y: Path, suffix: string)
    requires NamesFor(p, x) && NamesFor(q, y) && IsSuffix(suffix)
    requires FoldPath(Suffixed(x, suffix)) == FoldPath(Suffixed(y, suffix))
    ensures p == q
  {
    hide Encoded, Fold, FoldPath;
    FoldedStem(x, suffix);
    FoldedStem(y, suffix);
    var n := |x| - 1;
    NamesNeverCollide(p[n], q[n]);
    assert forall i :: 0 <= i < n ==> Fold(x[i]) == Fold(y[i]);
    NamesDecide(p, q, x, y);
  }

  lemma BodyNotSidecar(p: seq<string>, q: seq<string>, x: Path, y: Path)
    requires NamesFor(p, x) && NamesFor(q, y)
    ensures FoldPath(Suffixed(x, "%obj")) != FoldPath(Suffixed(y, "%meta"))
  {
    hide Encoded, Fold, FoldPath;
    FoldedStem(x, "%obj");
    FoldedStem(y, "%meta");
    NamesNeverCollide(p[|x| - 1], q[|y| - 1]);
  }

  lemma FileNotDirectory(p: seq<string>, q: seq<string>, x: Path, y: Path, suffix: string, i: nat)
    requires NamesFor(p, x) && NamesFor(q, y) && IsSuffix(suffix) && 0 < i <= |y|
    ensures FoldPath(Suffixed(x, suffix)) != FoldPath(y[..i])
  {
    hide Encoded, Fold;
    FoldedStem(x, suffix);
    NamesNeverCollide(p[|x| - 1], q[i - 1]);
    assert FoldPath(y[..i])[i - 1] == Fold(y[i - 1]);
  }

  lemma KeyNames(key: Key)
    requires Storable(key)
    ensures NamesFor(Split(key, '/'), NamesOf(key))
    ensures BodyPath(NamesOf(key)) == Suffixed(NamesOf(key), "%obj")
    ensures SidecarPath(NamesOf(key)) == Suffixed(NamesOf(key), "%meta")
  {
  }

  /** Case ignored, the files of two objects are different files, and no file of one is a directory on
      the way to another. */
  lemma FilesDiffer(a: Key, b: Key)
    requires Storable(a) && Storable(b)
    ensures FoldPath(BodyPath(NamesOf(a))) != FoldPath(SidecarPath(NamesOf(b)))
    ensures FoldPath(BodyPath(NamesOf(a))) == FoldPath(BodyPath(NamesOf(b))) ==> a == b
    ensures FoldPath(SidecarPath(NamesOf(a))) == FoldPath(SidecarPath(NamesOf(b))) ==> a == b
    ensures forall i :: 0 < i <= |NamesOf(b)| ==> && FoldPath(BodyPath(NamesOf(a))) != FoldPath(NamesOf(b)[..i])
                                                  && FoldPath(SidecarPath(NamesOf(a))) != FoldPath(NamesOf(b)[..i])
  {
    KeyNames(a);
    KeyNames(b);
    hide *;
    var p, q := Split(a, '/'), Split(b, '/');
    var x, y := NamesOf(a), NamesOf(b);
    NotNothing(p, x);
    NotNothing(q, y);
    BodyNotSidecar(p, q, x, y);
    forall i | 0 < i <= |y|
      ensures FoldPath(Suffixed(x, "%obj")) != FoldPath(y[..i]) && FoldPath(Suffixed(x, "%meta")) != FoldPath(y[..i])
    {
      FileNotDirectory(p, q, x, y, "%obj", i);
      FileNotDirectory(p, q, x, y, "%meta", i);
    }
    JoinSplit(a, '/');
    JoinSplit(b, '/');
    if FoldPath(Suffixed(x, "%obj")) == FoldPath(Suffixed(y, "%obj")) {
      SuffixedDecide(p, q, x, y, "%obj");
    }
    if FoldPath(Suffixed(x, "%meta")) == FoldPath(Suffixed(y, "%meta")) {
      SuffixedDecide(p, q, x, y, "%meta");
    }
  }

  lemma NotNothing(segments: seq<string>, names: seq<string>)
    requires NamesFor(segments, names)
    ensures names != [] && IsSuffix("%obj") && IsSuffix("%meta")
  {
  }

  /** Where an object lies: a path of literal segments is the directories and the file of the same names,
      with the suffixes "%obj" and "%meta". */
  lemma LiteralPathLies(scope: string, entity: string, area: string, name: string)
    requires BuildPath(scope, entity, area, name).Some?
    requires Encoded(scope) == Some(scope) && Encoded(entity) == Some(entity) && Encoded(area) == Some(area)
    requires Encoded(name + ".md") == Some(name + ".md")
    ensures var key := BuildPath(scope, entity, area, name).value;
            && Storable(key)
            && BodyPath(NamesOf(key)) == [scope, entity, area, name + ".md" + "%obj"]
            && SidecarPath(NamesOf(key)) == [scope, entity, area, name + ".md" + "%meta"]
  {
    hide Encoded;
    var key := BuildPath(scope, entity, area, name).value;
    SplitFour(scope, entity, area, name + ".md");
    var segments := Split(key, '/');
    assert segments == [scope, entity, area, name + ".md"];
    assert forall i :: 0 <= i < 4 ==> Encoded(segments[i]) == Some(segments[i]);
    assert NamesOf(key) == segments;
  }

  /** Directories and files of a tree the backend made: closed upwards, every file a body, a sidecar
      with its body, or hidden. */
  predicate FileOk(t: Tree, p: Path)
    requires p in t.files
  {
    && p != [] && Parent(p) in t.dirs && p !in t.dirs
    && if Hidden(Last(p)) then t.files[p].Scratch?
       else if IsSidecarPath(p) then t.files[p].Sidecar? && BodyPath(SidecarStem(p)) in t.files
       else IsBodyPath(p) && t.files[p].Body?
  }

  predicate DirOk(t: Tree, d: Path)
  {
    AreNames(d) && (d != [] ==> Parent(d) in t.dirs)
  }

  predicate TreeOk(t: Tree) {
    && [] in t.dirs
    && (forall d {:trigger DirOk(t, d)} :: d in t.dirs ==> DirOk(t, d))
    && (forall p {:trigger FileOk(t, p)} :: p in t.files ==> FileOk(t, p))
  }

  /** The object a tree holds under a key. */
  function ObjectAt(t: Tree, key: Key): Option<S.Object> {
    if !Storable(key) || SidecarPath(NamesOf(key)) !in t.files || BodyPath(NamesOf(key)) !in t.files then None
    else
      match (t.files[SidecarPath(NamesOf(key))], t.files[BodyPath(NamesOf(key))])
      case (Sidecar(metadata, version), Body(data)) => Some(S.Object(data, metadata, version))
      case _ => None
  }

  /** The keys of the objects in a tree. */
  function Keys(t: Tree): set<Key> {
    set p | p in t.files && IsSidecarPath(p) :: KeyOf(SidecarStem(p))
  }

  lemma SidecarHasBody(t: Tree, stem: Path)
    requires TreeOk(t) && IsStem(stem) && SidecarPath(stem) in t.files
    ensures BodyPath(stem) in t.files && t.files[BodyPath(stem)].Body? && t.files[SidecarPath(stem)].Sidecar?
  {
    SidecarOfStem(stem);
    assert FileOk(t, SidecarPath(stem));
    assert FileOk(t, BodyPath(stem));
    BodyIsNotSidecar(stem);
  }

  lemma BodyIsNotSidecar(stem: Path)
    requires stem != []
    ensures !IsSidecarPath(BodyPath(stem))
  {
    if IsSidecarPath(BodyPath(stem)) {
      StemOfSidecar(BodyPath(stem));
      PathsDiffer(stem, SidecarStem(BodyPath(stem)));
    }
  }

  /** A key is listed exactly when its object is there. */
  lemma KeyIn(t: Tree, key: Key)
    requires TreeOk(t)
    ensures key in Keys(t) <==> ObjectAt(t, key).Some?
    ensures key in Keys(t) <==> Storable(key) && SidecarPath(NamesOf(key)) in t.files
  {
    hide TreeOk;
    if key in Keys(t) {
      var p :| p in t.files && IsSidecarPath(p) && KeyOf(SidecarStem(p)) == key;
      KeyOfStem(SidecarStem(p));
      StemOfSidecar(p);
      SidecarHasBody(t, SidecarStem(p));
    }
    if Storable(key) && SidecarPath(NamesOf(key)) in t.files {
      StemOfKey(key);
      SidecarOfStem(NamesOf(key));
      SidecarHasBody(t, NamesOf(key));
      assert KeyOf(SidecarStem(SidecarPath(NamesOf(key)))) == key;
    }
  }

  /** What the tree holds, as a flat map. */
  function Objects(t: Tree): (objects: map<Key, S.Object>)
    requires TreeOk(t)
    ensures objects.Keys == Keys(t)
    ensures forall k :: k in objects ==> ObjectAt(t, k) == Some(objects[k])
  {
    assert forall k :: k in Keys(t) ==> ObjectAt(t, k).Some? by {
      forall k | k in Keys(t)
        ensures ObjectAt(t, k).Some?
      {
        KeyIn(t, k);
      }
    }
    map k | k in Keys(t) :: ObjectAt(t, k).value
  }

  function AsFlat(t: Tree, next: S.Version): S.Flat
    requires TreeOk(t)
  {
    S.Flat(Objects(t), next)
  }

  lemma FlatGet(t: Tree, next: S.Version, key: Key)
    requires TreeOk(t)
    ensures S.Get(AsFlat(t, next), key) == ObjectAt(t, key)
  {
    KeyIn(t, key);
  }

  /** Trees that agree on every key hold the same objects. */
  lemma SameObjects(t: Tree, u: Tree)
    requires TreeOk(t) && TreeOk(u) && forall k :: ObjectAt(t, k) == ObjectAt(u, k)
    ensures Objects(t) == Objects(u)
  {
    hide TreeOk, ObjectAt, Keys;
    forall k
      ensures k in Objects(t) <==> k in Objects(u)
    {
      KeyIn(t, k);
      KeyIn(u, k);
    }
  }

  lemma ObjectsWith(t: Tree, u: Tree, key: Key, o: S.Object)
    requires TreeOk(t) && TreeOk(u) && ObjectAt(u, key) == Some(o)
    requires forall k :: k != key ==> ObjectAt(u, k) == ObjectAt(t, k)
    ensures Objects(u) == Objects(t)[key := o]
  {
    hide TreeOk, ObjectAt, Keys;
    forall k
      ensures k in Objects(u) <==> k == key || k in Objects(t)
    {
      KeyIn(t, k);
      KeyIn(u, k);
    }
  }

  lemma ObjectsWithout(t: Tree, u: Tree, key: Key)
    requires TreeOk(t) && TreeOk(u) && ObjectAt(u, key) == None
    requires forall k :: k != key ==> ObjectAt(u, k) == ObjectAt(t, k)
    ensures Objects(u) == Objects(t) - {key}
  {
    hide TreeOk, ObjectAt, Keys;
    forall k
      ensures k in Objects(u) <==> k != key && k in Objects(t)
    {
      KeyIn(t, k);
      KeyIn(u, k);
    }
  }
}
