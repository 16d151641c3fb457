/** Splitting on a separator, and the memory paths and prefixes built from "/" segments. */
module Paths {
  import opened Wrappers

  const MD_SUFFIX := ".md"

  /** The area whose files come first in an index and do not count against the file cap. */
  const SYSTEM_AREA := "system"

  function Split(s: string, sep: char): (parts: seq<string>)
    ensures |parts| >= 1
    ensures forall i :: 0 <= i < |parts| ==> sep !in parts[i]
  {
    if s == "" then [""]
    else
      var rest := Split(s[1..], sep);
      if s[0] == sep then [""] + rest else [[s[0]] + rest[0]] + rest[1..]
  }

  function Join(parts: seq<string>, sep: char): string {
    if parts == [] then ""
    else if |parts| == 1 then parts[0]
    else parts[0] + [sep] + Join(parts[1..], sep)
  }

  lemma {:induction false} JoinSplit(s: string, sep: char)
    ensures Join(Split(s, sep), sep) == s
  {
    if s == "" {
    } else {
      JoinSplit(s[1..], sep);
      var rest := Split(s[1..], sep);
      if s[0] == sep {
        assert ([""] + rest)[1..] == rest;
      } else {
        var parts := [[s[0]] + rest[0]] + rest[1..];
        assert parts[1..] == rest[1..];
      }
    }
  }

  lemma {:induction false} SplitCons(s: string, sep: char, tail: string)
    requires sep !in s
    ensures Split(s + [sep] + tail, sep) == [s] + Split(tail, sep)
    ensures Split(s, sep) == [s]
  {
    var whole := s + [sep] + tail;
    if s != "" {
      SplitCons(s[1..], sep, tail);
      assert whole[1..] == s[1..] + [sep] + tail;
      assert s == [s[0]] + s[1..];
      assert s[0] != sep;
      assert ([s[1..]] + Split(tail, sep))[1..] == Split(tail, sep);
    } else {
      assert whole[1..] == tail;
    }
  }

  lemma {:induction false} SplitJoin(parts: seq<string>, sep: char)
    requires parts != [] && forall i :: 0 <= i < |parts| ==> sep !in parts[i]
    ensures Split(Join(parts, sep), sep) == parts
  {
    if |parts| == 1 {
      SplitCons(parts[0], sep, "");
    } else {
      SplitJoin(parts[1..], sep);
      SplitCons(parts[0], sep, Join(parts[1..], sep));
    }
  }

  /** `c` read as whole segments and a last, partial one matches the start of `q`. */
  predicate SegmentsMatch(c: seq<string>, q: seq<string>)
    requires c != []
  {
    |c| <= |q| && c[..|c| - 1] == q[..|c| - 1] && c[|c| - 1] <= q[|c| - 1]
  }

  lemma {:induction false} PrefixOfFirst(s: string, key: string, sep: char)
    requires sep !in s
    ensures s <= key <==> s <= Split(key, sep)[0]
  {
    if s == "" || key == "" || s[0] != key[0] {
    } else {
      PrefixOfFirst(s[1..], key[1..], sep);
      var rest := Split(key[1..], sep);
      assert Split(key, sep)[0] == [key[0]] + rest[0];
      assert s == [s[0]] + s[1..] && key == [key[0]] + key[1..];
      assert ([key[0]] + rest[0])[1..] == rest[0];
    }
  }

  lemma WholeFirst(s: string, key: string, sep: char, tail: string)
    requires sep !in s
    ensures s + [sep] + tail <= key
            <==> |Split(key, sep)| > 1 && Split(key, sep)[0] == s
                 && tail <= Join(Split(key, sep)[1..], sep)
  {
    var parts := Split(key, sep);
    JoinSplit(key, sep);
    if |parts| > 1 {
      var rest := Join(parts[1..], sep);
      assert key == parts[0] + [sep] + rest;
      if s + [sep] + tail <= key {
        var n := |s|;
        SameFirst(s, parts[0], sep, key, rest);
        assert key[n + 1..] == rest && tail <= key[n + 1..];
      }
    } else {
      NotInNotPrefix(s + [sep] + tail, key, |s|);
    }
  }

  lemma NotInNotPrefix(p: string, key: string, i: nat)
    requires i < |p| && p[i] !in key
    ensures !(p <= key)
  {
    assert i < |key| ==> key[i] != p[i];
  }

  lemma SameFirst(s: string, first: string, sep: char, key: string, rest: string)
    requires sep !in s && sep !in first && s + [sep] <= key && key == first + [sep] + rest
    ensures s == first
  {
    SplitCons(s, sep, key[|s| + 1..]);
    SplitCons(first, sep, rest);
    assert key == s + [sep] + key[|s| + 1..];
    assert Split(key, sep)[0] == s;
  }

  /** A plain string prefix of a key is: its whole segments are the key's leading segments,
      and its last segment is a prefix of the key's next one. */
  lemma {:induction false} PrefixIsSegments(prefix: string, key: string, sep: char)
    ensures prefix <= key <==> SegmentsMatch(Split(prefix, sep), Split(key, sep))
    decreases |Split(prefix, sep)|
  {
    var c, q := Split(prefix, sep), Split(key, sep);
    JoinSplit(prefix, sep);
    JoinSplit(key, sep);
    if |c| == 1 {
      PrefixOfFirst(prefix, key, sep);
    } else {
      var tail := Join(c[1..], sep);
      assert prefix == c[0] + [sep] + tail;
      WholeFirst(c[0], key, sep, tail);
      SplitJoin(c[1..], sep);
      if |q| > 1 {
        var rest := Join(q[1..], sep);
        SplitJoin(q[1..], sep);
        PrefixIsSegments(tail, rest, sep);
        MatchCons(c, q);
      }
    }
  }

  lemma MatchCons(c: seq<string>, q: seq<string>)
    requires |c| > 1 && |q| > 1
    ensures SegmentsMatch(c, q) <==> c[0] == q[0] && SegmentsMatch(c[1..], q[1..])
  {
    if |c| <= |q| {
      var n := |c| - 1;
      assert c[..n] == [c[0]] + c[1..][..n - 1] && q[..n] == [q[0]] + q[1..][..n - 1];
      assert c[..n] == q[..n] ==> c[..n][0] == q[..n][0] && c[..n][1..] == q[..n][1..];
    }
  }

  /** A Unicode control character (category Cc). */
  predicate IsControl(c: char) {
    c < ' ' || 0x7F <= c as int < 0xA0
  }

  predicate ValidSegment(s: string) {
    s != "" && s != "." && s != ".." && '/' !in s && '\\' !in s && forall c :: c in s ==> !IsControl(c)
  }

  /** A segment is refused for being empty, "." or "..", or for one character: a slash, a backslash or a
      control character, that is one of U+0000 to U+001F and U+007F to U+009F. */
  lemma SegmentRefusedIff(s: string)
    ensures !ValidSegment(s)
            <==> || |s| == 0 || s == ['.'] || s == ['.', '.']
                 || exists i :: 0 <= i < |s| && (s[i] as int in {0x2F, 0x5C} || s[i] as int < 0x20 || 0x7E < s[i] as int < 0xA0)
  {
    assert '/' in s || '\\' in s || (exists c :: c in s && IsControl(c)) ==>
      exists i :: 0 <= i < |s| && (s[i] == '/' || s[i] == '\\' || IsControl(s[i]));
    forall i | 0 <= i < |s| && (s[i] as int in {0x2F, 0x5C} || s[i] as int < 0x20 || 0x7E < s[i] as int < 0xA0)
      ensures s[i] == '/' || s[i] == '\\' || IsControl(s[i])
    {
    }
  }

  predicate EndsWith(s: string, suffix: string) {
    |suffix| <= |s| && s[|s| - |suffix|..] == suffix
  }

  predicate ValidPath(path: string) {
    var segments := Split(path, '/');
    && |segments| == 4
    && (forall i :: 0 <= i < 4 ==> ValidSegment(segments[i]))
    && EndsWith(segments[3], MD_SUFFIX) && |segments[3]| > |MD_SUFFIX|
  }

  predicate ValidPrefix(prefix: string) {
    && EndsWith(prefix, "/")
    && var segments := Split(prefix[..|prefix| - 1], '/');
       |segments| <= 3 && forall i :: 0 <= i < |segments| ==> ValidSegment(segments[i])
  }

  datatype PathParts = PathParts(scope: string, entity: string, area: string, name: string)

  function ParsePath(path: string): Option<PathParts> {
    if !ValidPath(path) then None
    else
      var s := Split(path, '/');
      Some(PathParts(s[0], s[1], s[2], s[3][..|s[3]| - |MD_SUFFIX|]))
  }

  function Parts(path: string): PathParts
    requires ValidPath(path)
  {
    ParsePath(path).value
  }

  /** One segment, a slash, and the rest. */
  function Slash(segment: string, rest: string): string {
    segment + "/" + rest
  }

  function BuildPath(scope: string, entity: string, area: string, name: string): Option<string> {
    if ValidSegment(scope) && ValidSegment(entity) && ValidSegment(area) && name != ""
       && ValidSegment(name + MD_SUFFIX)
    then Some(Slash(scope, Slash(entity, Slash(area, name + MD_SUFFIX))))
    else None
  }

  function EntityPrefix(scope: string, entity: string): string {
    Slash(scope, Slash(entity, ""))
  }

  function AreaPrefix(scope: string, entity: string, area: string): string {
    Slash(scope, Slash(entity, Slash(area, "")))
  }

  /** The listing prefix for a scope, an entity or an area; None for an invalid segment, or an area of no
      entity. */
  function BuildPrefix(scope: string, entity: Option<string>, area: Option<string>): Option<string> {
    if area.Some? && entity.None? then None
    else if !ValidSegment(scope) || (entity.Some? && !ValidSegment(entity.value))
            || (area.Some? && !ValidSegment(area.value)) then None
    else if entity.None? then Some(Slash(scope, ""))
    else if area.None? then Some(EntityPrefix(scope, entity.value))
    else Some(AreaPrefix(scope, entity.value, area.value))
  }

  lemma SplitSlash(segment: string, rest: string)
    requires '/' !in segment
    ensures Split(Slash(segment, rest), '/') == [segment] + Split(rest, '/')
    ensures Split(segment, '/') == [segment]
  {
    SplitCons(segment, '/', rest);
  }

  lemma SplitFour(a: string, b: string, c: string, d: string)
    requires '/' !in a && '/' !in b && '/' !in c && '/' !in d
    ensures Split(Slash(a, Slash(b, Slash(c, d))), '/') == [a, b, c, d]
  {
    SplitSlash(d, "");
    SplitSlash(c, d);
    SplitSlash(b, Slash(c, d));
    SplitSlash(a, Slash(b, Slash(c, d)));
  }

  /** What `build_path` accepts is a well-formed path that parses back to its parts. */
  lemma BuildThenParse(scope: string, entity: string, area: string, name: string)
    requires BuildPath(scope, entity, area, name).Some?
    ensures ParsePath(BuildPath(scope, entity, area, name).value)
            == Some(PathParts(scope, entity, area, name))
  {
    var last := name + MD_SUFFIX;
    SplitFour(scope, entity, area, last);
    assert last[|last| - 3..] == MD_SUFFIX && last[..|last| - 3] == name;
  }

  lemma JoinFour(s: seq<string>)
    requires |s| == 4
    ensures Join(s, '/') == Slash(s[0], Slash(s[1], Slash(s[2], s[3])))
  {
    var t := s[1..];
    var u := t[1..];
    assert u[1..] == [s[3]];
    assert Join(u, '/') == Slash(s[2], s[3]);
    assert Join(t, '/') == Slash(s[1], Join(u, '/'));
  }

  /** Every well-formed path is built from its own parts. */
  lemma ParseThenBuild(path: string)
    requires ValidPath(path)
    ensures var p := Parts(path); BuildPath(p.scope, p.entity, p.area, p.name) == Some(path)
  {
    var s := Split(path, '/');
    JoinSplit(path, '/');
    JoinFour(s);
    var name := s[3][..|s[3]| - 3];
    assert s[3] == name + MD_SUFFIX;
  }

  /** Any key, well-formed or not, under an entity prefix has that scope and entity as its
      first two segments, so no key is under two entities. */
  lemma EntityPrefixSegments(scope: string, entity: string, key: string)
    requires '/' !in scope && '/' !in entity
    ensures EntityPrefix(scope, entity) <= key
            <==> var q := Split(key, '/'); |q| >= 3 && q[0] == scope && q[1] == entity
  {
    SplitSlash(entity, "");
    SplitSlash(scope, Slash(entity, ""));
    PrefixIsSegments(EntityPrefix(scope, entity), key, '/');
    Leading([scope, entity], key, EntityPrefix(scope, entity));
  }

  lemma AreaPrefixSegments(scope: string, entity: string, area: string, key: string)
    requires '/' !in scope && '/' !in entity && '/' !in area
    ensures AreaPrefix(scope, entity, area) <= key
            <==> var q := Split(key, '/'); |q| >= 4 && q[0] == scope && q[1] == entity && q[2] == area
  {
    SplitFour(scope, entity, area, "");
    PrefixIsSegments(AreaPrefix(scope, entity, area), key, '/');
    Leading([scope, entity, area], key, AreaPrefix(scope, entity, area));
  }

  lemma Leading(whole: seq<string>, key: string, prefix: string)
    requires Split(prefix, '/') == whole + [""]
    ensures var q := Split(key, '/');
            SegmentsMatch(Split(prefix, '/'), q)
            <==> |q| > |whole| && forall i :: 0 <= i < |whole| ==> q[i] == whole[i]
  {
    assert (whole + [""])[..|whole|] == whole;
    var q := Split(key, '/');
    if |q| > |whole| {
      assert whole == q[..|whole|] <==> forall i :: 0 <= i < |whole| ==> q[i] == whole[i];
    }
  }

  lemma EntitiesDisjoint(scope: string, entity: string, scope': string, entity': string, key: string)
    requires '/' !in scope && '/' !in entity && '/' !in scope' && '/' !in entity'
    requires EntityPrefix(scope, entity) <= key && EntityPrefix(scope', entity') <= key
    ensures scope == scope' && entity == entity'
  {
    EntityPrefixSegments(scope, entity, key);
    EntityPrefixSegments(scope', entity', key);
  }

  /** The segments of a prefix. */
  function Given(scope: string, entity: Option<string>, area: Option<string>): seq<string> {
    [scope] + (if entity.Some? then [entity.value] else []) + (if area.Some? then [area.value] else [])
  }

  /** What `build_prefix` accepts is a well-formed prefix. */
  lemma BuildPrefixIsValid(scope: string, entity: Option<string>, area: Option<string>)
    requires BuildPrefix(scope, entity, area).Some?
    ensures ValidPrefix(BuildPrefix(scope, entity, area).value)
  {
    var prefix := BuildPrefix(scope, entity, area).value;
    var inner := if entity.None? then scope
                 else if area.None? then Slash(scope, entity.value)
                 else Slash(scope, Slash(entity.value, area.value));
    assert prefix[..|prefix| - 1] == inner && prefix[|prefix| - 1..] == "/";
    SplitInner(scope, entity, area);
    hide Split, Slash, BuildPrefix;
    forall i | 0 <= i < |Given(scope, entity, area)|
      ensures ValidSegment(Given(scope, entity, area)[i])
    {
      GivenAreValid(scope, entity, area, i);
    }
  }

  /** The well-formed prefixes: one to three valid segments, each followed by a slash. */
  lemma ValidPrefixIff(prefix: string)
    ensures ValidPrefix(prefix)
            <==> exists scope, entity, area :: BuildPrefix(scope, entity, area) == Some(prefix)
  {
    if ValidPrefix(prefix) {
      var segments := Split(prefix[..|prefix| - 1], '/');
      JoinSplit(prefix[..|prefix| - 1], '/');
      PrefixOfSegments(segments);
      assert prefix == prefix[..|prefix| - 1] + "/";
      var entity := if |segments| > 1 then Some(segments[1]) else None;
      var area := if |segments| > 2 then Some(segments[2]) else None;
      assert BuildPrefix(segments[0], entity, area) == Some(prefix);
    }
    if scope, entity, area :| BuildPrefix(scope, entity, area) == Some(prefix) {
      BuildPrefixIsValid(scope, entity, area);
    }
  }

  lemma PrefixOfSegments(segments: seq<string>)
    requires 1 <= |segments| <= 3 && forall i :: 0 <= i < |segments| ==> ValidSegment(segments[i])
    ensures BuildPrefix(segments[0], if |segments| > 1 then Some(segments[1]) else None,
                        if |segments| > 2 then Some(segments[2]) else None)
            == Some(Join(segments, '/') + "/")
  {
    hide ValidSegment;
    if |segments| == 1 {
      assert Join(segments, '/') == segments[0];
      assert Slash(segments[0], "") == segments[0] + "/";
    } else if |segments| == 2 {
      assert segments[1..] == [segments[1]];
      assert Join(segments, '/') == segments[0] + "/" + segments[1];
      PrefixText(segments[0], segments[1]);
    } else {
      assert segments[1..][1..] == [segments[2]];
      assert Join(segments[1..], '/') == segments[1] + "/" + segments[2];
      assert Join(segments, '/') == segments[0] + "/" + Join(segments[1..], '/');
      AreaText(segments[0], segments[1], segments[2]);
      assert segments[0] + "/" + (segments[1] + "/" + segments[2]) + "/"
          == segments[0] + "/" + segments[1] + "/" + segments[2] + "/";
    }
  }

  lemma PrefixText(scope: string, entity: string)
    ensures EntityPrefix(scope, entity) == scope + "/" + entity + "/"
  {
    assert EntityPrefix(scope, entity) == scope + "/" + (entity + "/" + "");
  }

  lemma AreaText(scope: string, entity: string, area: string)
    ensures AreaPrefix(scope, entity, area) == scope + "/" + entity + "/" + area + "/"
  {
    assert AreaPrefix(scope, entity, area) == scope + "/" + (entity + "/" + (area + "/" + ""));
  }

  /** What a prefix is built from, and what is refused. */
  lemma BuildPrefixIff(scope: string, entity: Option<string>, area: Option<string>)
    ensures BuildPrefix(scope, entity, area)
            == match (entity, area)
               case (None, None) => if ValidSegment(scope) then Some(scope + "/") else None
               case (Some(e), None) =>
                 if ValidSegment(scope) && ValidSegment(e) then Some(scope + "/" + e + "/") else None
               case (Some(e), Some(a)) =>
                 if ValidSegment(scope) && ValidSegment(e) && ValidSegment(a) then Some(scope + "/" + e + "/" + a + "/")
                 else None
               case (None, Some(_)) => None
  {
    hide ValidSegment;
    assert Slash(scope, "") == scope + "/";
    if entity.Some? && area.None? {
      PrefixText(scope, entity.value);
    }
    if entity.Some? && area.Some? {
      AreaText(scope, entity.value, area.value);
    }
  }

  lemma GivenAreValid(scope: string, entity: Option<string>, area: Option<string>, i: nat)
    requires BuildPrefix(scope, entity, area).Some? && i < |Given(scope, entity, area)|
    ensures ValidSegment(Given(scope, entity, area)[i])
  {
    hide ValidSegment;
  }

  /** The keys with that prefix, as plain strings, are those led by its segments. */
  lemma BuildPrefixMeans(scope: string, entity: Option<string>, area: Option<string>, k: string)
    requires BuildPrefix(scope, entity, area).Some?
    ensures BuildPrefix(scope, entity, area).value <= k
            <==> var q, given := Split(k, '/'), Given(scope, entity, area);
                 |q| > |given| && forall i :: 0 <= i < |given| ==> q[i] == given[i]
  {
    SplitPrefix(scope, entity, area);
    PrefixIsSegments(BuildPrefix(scope, entity, area).value, k, '/');
    Leading(Given(scope, entity, area), k, BuildPrefix(scope, entity, area).value);
  }

  lemma SplitInner(scope: string, entity: Option<string>, area: Option<string>)
    requires BuildPrefix(scope, entity, area).Some?
    ensures var inner := if entity.None? then scope
                         else if area.None? then Slash(scope, entity.value)
                         else Slash(scope, Slash(entity.value, area.value));
            Split(inner, '/') == Given(scope, entity, area)
  {
    SplitSlash(scope, if entity.None? then "" else if area.None? then entity.value else Slash(entity.value, area.value));
    if entity.Some? {
      SplitSlash(entity.value, if area.None? then "" else area.value);
      if area.Some? {
        SplitSlash(area.value, "");
      }
    }
  }

  lemma SplitPrefix(scope: string, entity: Option<string>, area: Option<string>)
    requires BuildPrefix(scope, entity, area).Some?
    ensures Split(BuildPrefix(scope, entity, area).value, '/') == Given(scope, entity, area) + [""]
  {
    var e, a := if entity.Some? then entity.value else "", if area.Some? then area.value else "";
    SplitSlash(scope, if entity.None? then "" else if area.None? then Slash(e, "") else Slash(e, Slash(a, "")));
    if entity.Some? {
      SplitSlash(e, if area.None? then "" else Slash(a, ""));
      if area.Some? {
        SplitSlash(a, "");
      }
    }
  }

  /** Area prefixes name the scope, entity and area they were built from. */
  lemma AreaPrefixInjective(a: PathParts, b: PathParts)
    requires '/' !in a.scope && '/' !in a.entity && '/' !in a.area
    requires '/' !in b.scope && '/' !in b.entity && '/' !in b.area
    requires AreaPrefix(a.scope, a.entity, a.area) == AreaPrefix(b.scope, b.entity, b.area)
    ensures a.scope == b.scope && a.entity == b.entity && a.area == b.area
  {
    var key := AreaPrefix(a.scope, a.entity, a.area);
    AreaPrefixSegments(a.scope, a.entity, a.area, key);
    AreaPrefixSegments(b.scope, b.entity, b.area, key);
  }
}
