/** Listing keys by walking the tree: whole segments of the prefix lead to a directory, and the last,
    partial one filters its entries. */
module TreeWalk {
  import opened Wrappers
  import opened KeyOrder
  import opened Paths
  import opened SegmentCodec
  import opened FileTree
  import S = Storage

  /** The part of a key that a directory stands for: each segment and its slash. */
  function DirKey(directory: Path): string
    requires AreNames(directory)
    decreases |directory|
  {
    if directory == [] then ""
    else DirKey(directory[..|directory| - 1]) + Decoded(Last(directory)).value + "/"
  }

  lemma {:induction false} JoinDir(segments: seq<string>, leaf: string)
    ensures Join(segments + [leaf], '/') == Concat(segments) + leaf
    decreases |segments|
  {
    if segments == [] {
      assert segments + [leaf] == [leaf];
    } else {
      JoinDir(segments[1..], leaf);
      assert (segments + [leaf])[1..] == segments[1..] + [leaf];
      ConcatFirst(segments);
      assert segments[0] + "/" + (Concat(segments[1..]) + leaf) == segments[0] + "/" + Concat(segments[1..]) + leaf;
    }
  }

  function Concat(segments: seq<string>): string {
    if segments == [] then "" else Concat(segments[..|segments| - 1]) + segments[|segments| - 1] + "/"
  }

  lemma {:induction false} ConcatFirst(segments: seq<string>)
    requires segments != []
    ensures Concat(segments) == segments[0] + "/" + Concat(segments[1..])
    decreases |segments|
  {
    if |segments| > 1 {
      var shorter := segments[..|segments| - 1];
      ConcatFirst(shorter);
      assert shorter[1..] == segments[1..][..|segments| - 2];
      assert segments[1..][|segments| - 2] == segments[|segments| - 1];
    } else {
      assert segments[..0] == [] && segments[1..] == [];
    }
  }

  lemma {:induction false} DirKeyIsConcat(directory: Path)
    requires AreNames(directory)
    ensures DirKey(directory) == Concat(SegmentsOf(directory))
    decreases |directory|
  {
    if directory == [] {
    } else {
      var shorter := directory[..|directory| - 1];
      DirKeyIsConcat(shorter);
      assert SegmentsOf(directory)[..|directory| - 1] == SegmentsOf(shorter);
    }
  }

  /** A file directly in a directory has the directory's key part and its own segment. */
  lemma KeyInDir(directory: Path, name: string)
    requires AreNames(directory) && IsStem(directory + [name])
    ensures IsName(name) && KeyOf(directory + [name]) == DirKey(directory) + Decoded(name).value
  {
    assert (directory + [name])[|directory|] == name;
    hide Decoded;
    DirKeyIsConcat(directory);
    JoinDir(SegmentsOf(directory), Decoded(name).value);
    assert SegmentsOf(directory + [name]) == SegmentsOf(directory) + [Decoded(name).value];
  }

  /** The key is below the directory, and its next segment starts with `partial`. */
  predicate Below(directory: Path, partial: string, k: Key) {
    && Storable(k) && |directory| < |NamesOf(k)| && NamesOf(k)[..|directory|] == directory
    && partial <= Split(k, '/')[|directory|]
  }

  function Within(t: Tree, directory: Path, partial: string): set<Key> {
    set k | k in Keys(t) && Below(directory, partial, k)
  }

  /** The entry of a directory that leads to the key. */
  function EntryOf(k: Key, n: nat): string
    requires Storable(k) && n < |NamesOf(k)|
  {
    if n == |NamesOf(k)| - 1 then NamesOf(k)[n] + SIDECAR_SUFFIX else NamesOf(k)[n]
  }

  predicate ViaEntry(directory: Path, partial: string, k: Key, name: string) {
    Below(directory, partial, k) && EntryOf(k, |directory|) == name
  }

  function WithinEntry(t: Tree, directory: Path, partial: string, name: string): set<Key> {
    set k | k in Keys(t) && ViaEntry(directory, partial, k, name)
  }

  /** The names in a directory. */
  function Entries(t: Tree, directory: Path): set<string> {
    (set p | p in t.dirs && p != [] && Parent(p) == directory :: Last(p))
    + (set p | p in t.files && p != [] && Parent(p) == directory :: Last(p))
  }

  lemma {:induction false} AncestorsExist(t: Tree, d: Path, n: nat)
    requires TreeOk(t) && d in t.dirs && n <= |d|
    ensures d[..n] in t.dirs
    decreases |d| - n
  {
    hide AreNames;
    if n < |d| {
      AncestorsExist(t, d, n + 1);
      assert DirOk(t, d[..n + 1]);
      assert Parent(d[..n + 1]) == d[..n];
    } else {
      assert d[..n] == d;
    }
  }

  /** Every stored key below a directory is reached through one of its entries. */
  lemma ReachedByEntry(t: Tree, directory: Path, partial: string, k: Key)
    requires TreeOk(t) && k in Within(t, directory, partial)
    ensures EntryOf(k, |directory|) in Entries(t, directory)
  {
    hide *;
    WithinMeans(t, directory, partial, k);
    var names, n := NamesOf(k), |directory|;
    SidecarInDir(t, k);
    if n == |names| - 1 {
      FileEntry(t, directory, names[n] + SIDECAR_SUFFIX);
    } else {
      AncestorsExist(t, names[..|names| - 1], n + 1);
      assert names[..|names| - 1][..n + 1] == directory + [names[n]];
      DirEntry(t, directory, names[n]);
    }
    EntryIs(k, n);
  }

  lemma WithinMeans(t: Tree, directory: Path, partial: string, k: Key)
    requires k in Within(t, directory, partial)
    ensures k in Keys(t) && Storable(k) && |directory| < |NamesOf(k)| && NamesOf(k)[..|directory|] == directory
  {
  }

  lemma EntryIs(k: Key, n: nat)
    requires Storable(k) && n < |NamesOf(k)|
    ensures EntryOf(k, n) == if n == |NamesOf(k)| - 1 then NamesOf(k)[n] + SIDECAR_SUFFIX else NamesOf(k)[n]
  {
  }

  lemma SidecarInDir(t: Tree, k: Key)
    requires TreeOk(t) && k in Keys(t) && Storable(k) && NamesOf(k) != []
    ensures var names := NamesOf(k);
            && names[..|names| - 1] in t.dirs
            && names[..|names| - 1] + [names[|names| - 1] + SIDECAR_SUFFIX] in t.files
  {
    KeyIn(t, k);
    var p := SidecarPath(NamesOf(k));
    assert FileOk(t, p);
    assert Parent(p) == Parent(NamesOf(k));
  }

  lemma FileEntry(t: Tree, directory: Path, name: string)
    requires directory + [name] in t.files
    ensures name in Entries(t, directory)
  {
    var p := directory + [name];
    assert p != [] && Parent(p) == directory && Last(p) == name;
  }

  lemma DirEntry(t: Tree, directory: Path, name: string)
    requires directory + [name] in t.dirs
    ensures name in Entries(t, directory)
  {
    var p := directory + [name];
    assert p != [] && Parent(p) == directory && Last(p) == name;
  }

  lemma NameSafe(k: Key, n: nat)
    requires Storable(k) && n < |NamesOf(k)|
    ensures SafeName(NamesOf(k)[n]) && IsName(NamesOf(k)[n]) && Decoded(NamesOf(k)[n]) == Some(Split(k, '/')[n])
  {
    EncodedIsSafe(Split(k, '/')[n]);
    NamesAreNames(k);
    CodecIsBijection(Split(k, '/')[n], NamesOf(k)[n]);
  }

  lemma SuffixEnds(n: string)
    ensures EndsWith(n + SIDECAR_SUFFIX, SIDECAR_SUFFIX) && !EndsWith(n + SIDECAR_SUFFIX, BODY_SUFFIX)
    ensures (n + SIDECAR_SUFFIX)[..|n + SIDECAR_SUFFIX| - 5] == n
  {
    var s := n + SIDECAR_SUFFIX;
    assert s[|n|..] == SIDECAR_SUFFIX;
    LastChars(s);
  }

  lemma LastChars(s: string)
    ensures EndsWith(s, BODY_SUFFIX) ==> s != "" && s[|s| - 1] == 'j'
    ensures EndsWith(s, SIDECAR_SUFFIX) ==> s != "" && s[|s| - 1] == 'a'
  {
    if EndsWith(s, BODY_SUFFIX) {
      assert s[|s| - 1] == s[|s| - 4..][3];
    }
    if EndsWith(s, SIDECAR_SUFFIX) {
      assert s[|s| - 1] == s[|s| - 5..][4];
    }
  }

  /** Nothing is reached through a hidden entry or a body file. */
  lemma NoKeyVia(t: Tree, directory: Path, partial: string, name: string)
    requires Hidden(name) || (EndsWith(name, BODY_SUFFIX) && !EndsWith(name, SIDECAR_SUFFIX))
    ensures WithinEntry(t, directory, partial, name) == {}
  {
    forall k | k in WithinEntry(t, directory, partial, name)
      ensures false
    {
      NameSafe(k, |directory|);
      SuffixEnds(NamesOf(k)[|directory|]);
    }
  }

  lemma EntryIsFile(t: Tree, directory: Path, name: string)
    requires TreeOk(t) && AreNames(directory) && name in Entries(t, directory) && !Hidden(name)
    requires EndsWith(name, SIDECAR_SUFFIX)
    ensures directory + [name] in t.files && IsSidecarPath(directory + [name])
  {
    var p := directory + [name];
    assert forall q: Path :: q != [] && Parent(q) == directory && Last(q) == name ==> q == p;
    assert Parent(p) == directory && Last(p) == name;
    if p in t.dirs {
      DirNames(t, p);
    }
    assert FileOk(t, p);
    LastChars(name);
  }

  lemma DirNames(t: Tree, d: Path)
    requires TreeOk(t) && d in t.dirs && d != []
    ensures IsName(Last(d)) && !EndsWith(Last(d), SIDECAR_SUFFIX) && !EndsWith(Last(d), BODY_SUFFIX)
  {
    assert DirOk(t, d);
    NamesAreSafe(d);
  }

  /** A sidecar entry is one key: the directory's key part and the decoded leaf. */
  lemma KeyViaSidecar(t: Tree, directory: Path, partial: string, name: string)
    requires TreeOk(t) && AreNames(directory) && directory + [name] in t.files && IsSidecarPath(directory + [name])
    ensures var leaf := Decoded(name[..|name| - 5]);
            && leaf.Some?
            && WithinEntry(t, directory, partial, name)
               == (if partial <= leaf.value then {DirKey(directory) + leaf.value} else {})
            && (var k := DirKey(directory) + leaf.value;
                Storable(k) && SidecarPath(NamesOf(k)) == directory + [name] && k in Keys(t))
  {
    hide TreeOk;
    var p := directory + [name];
    var n := name[..|name| - 5];
    assert Parent(p) == directory && Last(p) == name && SidecarStem(p) == directory + [n];
    KeyInDir(directory, n);
    var k := KeyOf(directory + [n]);
    KeyOfStem(directory + [n]);
    StemOfSidecar(p);
    SuffixEnds(n);
    NameSafe(k, |directory|);
    KeyIn(t, k);
    forall x
      ensures x in WithinEntry(t, directory, partial, name) <==> x == k && partial <= Decoded(n).value
    {
      if x in WithinEntry(t, directory, partial, name) {
        OnlyKeyVia(directory, partial, n, x);
      }
    }
  }

  /** A key reached through a sidecar entry is the key of that sidecar. */
  lemma OnlyKeyVia(directory: Path, partial: string, n: string, x: Key)
    requires ViaEntry(directory, partial, x, n + SIDECAR_SUFFIX)
    ensures NamesOf(x) == directory + [n] && IsStem(directory + [n]) && KeyOf(directory + [n]) == x
    ensures Decoded(n) == Some(Split(x, '/')[|directory|])
  {
    hide Decoded, Encoded, Split, EndsWith, Plain, KeyOf;
    var d := |directory|;
    NameSafe(x, d);
    SuffixEnds(n);
    if d < |NamesOf(x)| - 1 {
      assert false;
    }
    SuffixEnds(NamesOf(x)[d]);
    assert NamesOf(x) == directory + [n];
    StemOfKey(x);
  }

  lemma EntryIsDir(t: Tree, directory: Path, name: string)
    requires TreeOk(t) && AreNames(directory) && name in Entries(t, directory) && !Hidden(name)
    requires !EndsWith(name, SIDECAR_SUFFIX) && !EndsWith(name, BODY_SUFFIX)
    ensures directory + [name] in t.dirs && IsName(name)
  {
    var p := directory + [name];
    assert forall q: Path :: q != [] && Parent(q) == directory && Last(q) == name ==> q == p;
    assert Parent(p) == directory && Last(p) == name;
    if p in t.files {
      FileNames(t, p);
    }
    assert DirOk(t, p);
    assert p[|directory|] == name;
  }

  lemma FileNames(t: Tree, p: Path)
    requires TreeOk(t) && p in t.files
    ensures p != [] && (Hidden(Last(p)) || EndsWith(Last(p), SIDECAR_SUFFIX) || EndsWith(Last(p), BODY_SUFFIX))
  {
    assert FileOk(t, p);
  }

  /** A directory entry leads to everything below it, if its segment starts with `partial`. */
  lemma KeysViaDir(t: Tree, directory: Path, partial: string, name: string)
    requires AreNames(directory) && IsName(name)
    ensures WithinEntry(t, directory, partial, name)
            == if partial <= Decoded(name).value then Within(t, directory + [name], "") else {}
  {
    var child := directory + [name];
    forall k
      ensures k in WithinEntry(t, directory, partial, name)
              <==> partial <= Decoded(name).value && k in Within(t, child, "")
    {
      if Storable(k) && |directory| < |NamesOf(k)| {
        ViaDirOnly(directory, partial, name, k);
      }
    }
  }

  lemma ViaDirOnly(directory: Path, partial: string, name: string, k: Key)
    requires AreNames(directory) && IsName(name) && Storable(k) && |directory| < |NamesOf(k)|
    ensures ViaEntry(directory, partial, k, name)
            <==> partial <= Decoded(name).value && Below(directory + [name], "", k)
  {
    hide Decoded, Encoded, Split, EndsWith, Plain;
    var d, names := |directory|, NamesOf(k);
    NameSafe(k, d);
    SuffixEnds(names[d]);
    NamesAreSafe([name]);
    assert SafeName([name][0]);
    if d < |names| - 1 {
      assert names[..d + 1] == names[..d] + [names[d]];
      assert (directory + [name])[..d] == directory && (directory + [name])[d] == name;
    }
  }

  datatype Found = Found(key: Key, path: Path)

  function FoundKeys(found: seq<Found>): set<Key> {
    set i | 0 <= i < |found| :: found[i].key
  }

  /** `found` extends `out` by exactly these keys, each once, with its sidecar. */
  ghost predicate Adds(out: seq<Found>, found: seq<Found>, keys: set<Key>) {
    && out <= found
    && FoundKeys(found[|out|..]) == keys
    && (forall i, j :: |out| <= i < j < |found| ==> found[i].key != found[j].key)
    && (forall i :: |out| <= i < |found| ==> Storable(found[i].key) && found[i].path == SidecarPath(NamesOf(found[i].key)))
  }

  lemma AddsNothing(out: seq<Found>)
    ensures Adds(out, out, {})
  {
  }

  lemma AddsOne(out: seq<Found>, key: Key)
    requires Storable(key)
    ensures Adds(out, out + [Found(key, SidecarPath(NamesOf(key)))], {key})
  {
    var found := out + [Found(key, SidecarPath(NamesOf(key)))];
    assert found[|out|..] == [found[|out|]];
    assert found[|out|..][0].key == key;
  }

  lemma FoundKeysJoin(a: seq<Found>, b: seq<Found>)
    ensures FoundKeys(a + b) == FoundKeys(a) + FoundKeys(b)
  {
    forall k
      ensures k in FoundKeys(a + b) <==> k in FoundKeys(a) + FoundKeys(b)
    {
      if k in FoundKeys(a) {
        var i :| 0 <= i < |a| && a[i].key == k;
        assert (a + b)[i].key == k;
      }
      if k in FoundKeys(b) {
        var i :| 0 <= i < |b| && b[i].key == k;
        assert (a + b)[|a| + i].key == k;
      }
    }
  }

  lemma AddsMore(a: seq<Found>, b: seq<Found>, c: seq<Found>, x: set<Key>, y: set<Key>)
    requires Adds(a, b, x) && Adds(b, c, y) && x !! y
    ensures Adds(a, c, x + y)
  {
    assert c[|a|..] == b[|a|..] + c[|b|..];
    FoundKeysJoin(b[|a|..], c[|b|..]);
    forall i, j | |a| <= i < |b| <= j < |c|
      ensures c[i].key != c[j].key
    {
      assert b[|a|..][i - |a|].key in x && c[|b|..][j - |b|].key in y;
    }
  }

  /** The keys reached through some of a directory's entries. */
  function Via(t: Tree, directory: Path, partial: string, names: set<string>): set<Key> {
    set k | k in Within(t, directory, partial) && EntryOf(k, |directory|) in names
  }

  lemma ViaOneMore(t: Tree, directory: Path, partial: string, names: set<string>, name: string)
    requires name !in names
    ensures Via(t, directory, partial, names + {name})
            == Via(t, directory, partial, names) + WithinEntry(t, directory, partial, name)
    ensures Via(t, directory, partial, names) !! WithinEntry(t, directory, partial, name)
  {
    hide Below, Keys, EntryOf;
  }

  lemma ViaAll(t: Tree, directory: Path, partial: string)
    requires TreeOk(t)
    ensures Via(t, directory, partial, Entries(t, directory)) == Within(t, directory, partial)
    ensures Via(t, directory, partial, {}) == {}
  {
    hide Below, Keys, EntryOf, Entries, TreeOk;
    forall k | k in Within(t, directory, partial)
      ensures k in Via(t, directory, partial, Entries(t, directory))
    {
      ReachedByEntry(t, directory, partial, k);
    }
  }

  /** The directories a walk has ahead of it. */
  function Ahead(t: Tree, directory: Path): set<Path> {
    set d | d in t.dirs && directory <= d
  }

  lemma FewerAhead(t: Tree, directory: Path, name: string)
    requires directory in t.dirs
    ensures |Ahead(t, directory + [name])| < |Ahead(t, directory)|
  {
    var child := directory + [name];
    forall d | d in Ahead(t, child)
      ensures d in Ahead(t, directory)
    {
      assert d[..|child|] == child && d[..|directory|] == child[..|directory|];
    }
    assert Ahead(t, child) <= Ahead(t, directory) - {directory};
    SubsetCardinality(Ahead(t, child), Ahead(t, directory) - {directory});
  }

  lemma NothingInAbsent(t: Tree, directory: Path, partial: string)
    requires TreeOk(t) && directory !in t.dirs
    ensures Within(t, directory, partial) == {}
  {
    forall k | k in Within(t, directory, partial)
      ensures false
    {
      ReachedByEntry(t, directory, partial, k);
      EntryNeedsDir(t, directory, EntryOf(k, |directory|));
    }
  }

  lemma EntryNeedsDir(t: Tree, directory: Path, name: string)
    requires TreeOk(t) && name in Entries(t, directory)
    ensures directory in t.dirs
  {
    if p :| p in t.dirs && p != [] && Parent(p) == directory && Last(p) == name {
      assert DirOk(t, p);
    } else {
      var p :| p in t.files && p != [] && Parent(p) == directory && Last(p) == name;
      assert FileOk(t, p);
    }
  }

  /** `_collect`: every sidecar below the directory whose next segment starts with `partial`, once,
      in whatever order the entries come. */
  method Collect(t: Tree, directory: Path, keyPrefix: string, partial: string, out: seq<Found>) returns (found: seq<Found>)
    requires TreeOk(t) && AreNames(directory) && keyPrefix == DirKey(directory)
    ensures Adds(out, found, Within(t, directory, partial))
    decreases |Ahead(t, directory)|
  {
    hide *;
    found := out;
    AddsNothing(out);
    if directory !in t.dirs {
      NothingInAbsent(t, directory, partial);
      return;
    }
    var rest := Entries(t, directory);
    ghost var done: set<string> := {};
    ViaAll(t, directory, partial);
    while rest != {}
      invariant done + rest == Entries(t, directory) && done !! rest
      invariant Adds(out, found, Via(t, directory, partial, done))
      decreases |rest|
    {
      var name :| name in rest;
      rest := rest - {name};
      ghost var before := found;
      found := CollectEntry(t, directory, keyPrefix, partial, name, found);
      ViaOneMore(t, directory, partial, done, name);
      AddsMore(out, before, found, Via(t, directory, partial, done), WithinEntry(t, directory, partial, name));
      done := done + {name};
    }
    assert done == Entries(t, directory);
  }

  /** One directory entry. */
  method CollectEntry(t: Tree, directory: Path, keyPrefix: string, partial: string, name: string, out: seq<Found>)
    returns (found: seq<Found>)
    requires TreeOk(t) && AreNames(directory) && keyPrefix == DirKey(directory) && directory in t.dirs
    requires name in Entries(t, directory)
    ensures Adds(out, found, WithinEntry(t, directory, partial, name))
    decreases |Ahead(t, directory)|, 0
  {
    hide *;
    found := out;
    AddsNothing(out);
    if StartsWithDot(name) {
      NoKeyVia(t, directory, partial, name);
    } else if EndsWith(name, SIDECAR_SUFFIX) {
      EntryIsFile(t, directory, name);
      KeyViaSidecar(t, directory, partial, name);
      SuffixLength(name);
      var leaf := DecodeSegment(name[..|name| - 5]);
      if leaf.Some? && partial <= leaf.value && directory + [name] in t.files {
        AddsOne(out, keyPrefix + leaf.value);
        found := out + [Found(keyPrefix + leaf.value, directory + [name])];
      }
    } else if EndsWith(name, BODY_SUFFIX) {
      NoKeyVia(t, directory, partial, name);
    } else {
      EntryIsDir(t, directory, name);
      KeysViaDir(t, directory, partial, name);
      var dirname := DecodeSegment(name);
      NameDecodes(directory, name);
      if dirname.Some? && partial <= dirname.value && directory + [name] in t.dirs {
        FewerAhead(t, directory, name);
        found := Collect(t, directory + [name], keyPrefix + dirname.value + "/", "", out);
      }
    }
  }

  predicate StartsWithDot(name: string)
    ensures StartsWithDot(name) == Hidden(name)
  {
    "." <= name
  }

  lemma SuffixLength(name: string)
    requires EndsWith(name, SIDECAR_SUFFIX)
    ensures |name| >= 5
  {
  }

  lemma NameDecodes(directory: Path, name: string)
    requires AreNames(directory) && IsName(name)
    ensures Decoded(name).Some? && AreNames(directory + [name])
    ensures DirKey(directory + [name]) == DirKey(directory) + Decoded(name).value + "/"
  {
    assert (directory + [name])[..|directory|] == directory;
  }
}
