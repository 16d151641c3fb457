/** File metadata and the flat string map it is stored as. */
module Metadata {
  import opened Wrappers
  import opened KeyOrder

  /** How a string spells what it means: as the library itself writes it, or in some other way, with
      or without a line break in it. */
  datatype Layout = Canonical | Otherwise(id: nat, lineBreak: bool)

  /** A stored string, seen by what it spells: a JSON list of strings, an ISO 8601 timestamp with
      an offset, or any other text. */
  datatype Text =
    | Plain(s: string)
    | JsonList(items: seq<string>, layout: Layout)
    | Instant(micros: int, layout: Layout)

  /** No newline or carriage return, spelled out. */
  predicate SingleLine(t: Text) {
    match t
    case Plain(s) => '\n' !in s && '\r' !in s
    case JsonList(_, layout) => layout.Otherwise? ==> !layout.lineBreak
    case Instant(_, layout) => layout.Otherwise? ==> !layout.lineBreak
  }

  datatype FileMetadata = FileMetadata(
    description: Text, aliases: seq<string>, sources: set<string>, lastUpdated: int)

  type TextMap = map<string, Text>

  const DESCRIPTION_KEY := "description"
  const ALIASES_KEY := "aliases"
  const SOURCES_KEY := "sources"
  const LAST_UPDATED_KEY := "last-updated"

  const KEYS := [DESCRIPTION_KEY, ALIASES_KEY, SOURCES_KEY, LAST_UPDATED_KEY]

  function ToMap(m: FileMetadata): TextMap {
    map[DESCRIPTION_KEY := m.description,
        ALIASES_KEY := JsonList(m.aliases, Canonical),
        SOURCES_KEY := JsonList(Sorted(m.sources), Canonical),
        LAST_UPDATED_KEY := Instant(m.lastUpdated, Canonical)]
  }

  /** The first required key, in order, that is missing. */
  function FirstMissing(values: TextMap, keys: seq<string>): Option<string> {
    if keys == [] then None
    else if keys[0] !in values then Some(keys[0])
    else FirstMissing(values, keys[1..])
  }

  lemma {:induction false} NothingMissing(values: TextMap, keys: seq<string>)
    ensures FirstMissing(values, keys).None? <==> forall i :: 0 <= i < |keys| ==> keys[i] in values
  {
    if keys == [] {
    } else {
      NothingMissing(values, keys[1..]);
      assert keys == [keys[0]] + keys[1..];
    }
  }

  lemma HasAll(values: TextMap)
    ensures FirstMissing(values, KEYS).None?
            <==> DESCRIPTION_KEY in values && ALIASES_KEY in values && SOURCES_KEY in values
                 && LAST_UPDATED_KEY in values
  {
    NothingMissing(values, KEYS);
    assert KEYS[0] == DESCRIPTION_KEY && KEYS[1] == ALIASES_KEY && KEYS[2] == SOURCES_KEY
        && KEYS[3] == LAST_UPDATED_KEY && |KEYS| == 4;
  }

  /** The metadata a map holds, or the key that is missing or malformed. */
  function FromMap(values: TextMap): Result<FileMetadata, string> {
    HasAll(values);
    match FirstMissing(values, KEYS)
    case Some(key) => Failure(key)
    case None =>
      if !values[ALIASES_KEY].JsonList? then Failure(ALIASES_KEY)
      else if !values[SOURCES_KEY].JsonList? then Failure(SOURCES_KEY)
      else if !values[LAST_UPDATED_KEY].Instant? then Failure(LAST_UPDATED_KEY)
      else if !SingleLine(values[DESCRIPTION_KEY]) then Failure(DESCRIPTION_KEY)
      else Success(FileMetadata(values[DESCRIPTION_KEY], values[ALIASES_KEY].items,
                                ElementsOf(values[SOURCES_KEY].items), values[LAST_UPDATED_KEY].micros))
  }

  /** A map is read as `m` exactly when it has the four keys and they spell `m`, in whatever layout. */
  lemma FromMapIff(values: TextMap, m: FileMetadata)
    ensures FromMap(values) == Success(m)
            <==> && "description" in values && "aliases" in values && "sources" in values && "last-updated" in values
                 && SingleLine(values["description"]) && values["description"] == m.description
                 && (exists layout :: values["aliases"] == JsonList(m.aliases, layout))
                 && (exists items, layout :: values["sources"] == JsonList(items, layout)
                                             && forall s :: s in items <==> s in m.sources)
                 && (exists layout :: values["last-updated"] == Instant(m.lastUpdated, layout))
  {
    HasAll(values);
    if FromMap(values) == Success(m) {
      assert values["aliases"] == JsonList(m.aliases, values["aliases"].layout);
      assert values["sources"] == JsonList(values["sources"].items, values["sources"].layout);
      assert values["last-updated"] == Instant(m.lastUpdated, values["last-updated"].layout);
    } else if "sources" in values {
      SourcesSpelt(values["sources"], m.sources);
    }
  }

  lemma SourcesSpelt(t: Text, sources: set<string>)
    ensures (exists items, layout :: t == JsonList(items, layout) && forall s :: s in items <==> s in sources)
            ==> t.JsonList? && ElementsOf(t.items) == sources
  {
    if items, layout :| t == JsonList(items, layout) && forall s :: s in items <==> s in sources {
      assert ElementsOf(items) == sources;
    }
  }

  /** A description is refused exactly for a newline or a carriage return in its spelling. */
  lemma DescriptionRefusedIff(values: TextMap, t: Text)
    requires FromMap(values).Success?
    ensures FromMap(values[DESCRIPTION_KEY := t]) == Failure("description")
            <==> match t
                 case Plain(s) => exists i :: 0 <= i < |s| && (s[i] as int == 10 || s[i] as int == 13)
                 case JsonList(_, layout) => layout.Otherwise? && layout.lineBreak
                 case Instant(_, layout) => layout.Otherwise? && layout.lineBreak
  {
    HasAll(values);
    HasAll(values[DESCRIPTION_KEY := t]);
  }

  /** The strings spell the same. */
  predicate SameSpelt(a: Text, b: Text) {
    match (a, b)
    case (JsonList(x, _), JsonList(y, _)) => x == y
    case (Instant(x, _), Instant(y, _)) => x == y
    case _ => a == b
  }

  /** How the values are laid out makes no difference, to what is read or to what is refused. */
  lemma LayoutMakesNoDifference(a: TextMap, b: TextMap)
    requires forall k | k in ["description", "aliases", "sources", "last-updated"] :: k in a <==> k in b
    requires forall k | k in ["aliases", "sources", "last-updated"] && k in a :: SameSpelt(a[k], b[k])
    requires "description" in a ==> a["description"] == b["description"]
    ensures FromMap(a) == FromMap(b)
  {
    HasAll(a);
    HasAll(b);
    assert forall i :: 0 <= i < 4 ==> (KEYS[i] in a <==> KEYS[i] in b);
    SameMissing(a, b, KEYS);
  }

  lemma {:induction false} SameMissing(a: TextMap, b: TextMap, keys: seq<string>)
    requires forall i :: 0 <= i < |keys| ==> (keys[i] in a <==> keys[i] in b)
    ensures FirstMissing(a, keys) == FirstMissing(b, keys)
  {
    if keys == [] {
    } else {
      SameMissing(a, b, keys[1..]);
    }
  }

  /** What is refused: a missing key before any malformed value, then the values in this order. */
  lemma FromMapFails(values: TextMap, key: string)
    ensures FromMap(values) == Failure(key)
            <==> if "description" !in values then key == "description"
                 else if "aliases" !in values then key == "aliases"
                 else if "sources" !in values then key == "sources"
                 else if "last-updated" !in values then key == "last-updated"
                 else if !values["aliases"].JsonList? then key == "aliases"
                 else if !values["sources"].JsonList? then key == "sources"
                 else if !values["last-updated"].Instant? then key == "last-updated"
                 else key == "description" && !SingleLine(values["description"])
  {
    MissingFirst(values);
    HasAll(values);
  }

  lemma MissingFirst(values: TextMap)
    ensures FirstMissing(values, KEYS)
            == if DESCRIPTION_KEY !in values then Some(DESCRIPTION_KEY)
               else if ALIASES_KEY !in values then Some(ALIASES_KEY)
               else if SOURCES_KEY !in values then Some(SOURCES_KEY)
               else if LAST_UPDATED_KEY !in values then Some(LAST_UPDATED_KEY) else None
  {
    var rest := KEYS[1..];
    assert rest == [ALIASES_KEY, SOURCES_KEY, LAST_UPDATED_KEY] && rest[1..] == [SOURCES_KEY, LAST_UPDATED_KEY];
    assert rest[1..][1..] == [LAST_UPDATED_KEY] && rest[1..][1..][1..] == [];
    var last := FirstMissing(values, rest[1..][1..]);
    assert FirstMissing(values, rest[1..][1..][1..]).None?;
    assert last == if LAST_UPDATED_KEY !in values then Some(LAST_UPDATED_KEY) else None;
    assert FirstMissing(values, rest[1..]) == if SOURCES_KEY !in values then Some(SOURCES_KEY) else last;
    assert FirstMissing(values, rest) == if ALIASES_KEY !in values then Some(ALIASES_KEY)
                                         else FirstMissing(values, rest[1..]);
  }

  function ElementsOf(items: seq<string>): set<string> {
    set x | x in items
  }

  /** Metadata survives being stored, whatever other keys the map also carries. */
  lemma FromToMap(m: FileMetadata, extra: TextMap)
    requires SingleLine(m.description)
    ensures FromMap(extra + ToMap(m)) == Success(m)
  {
    HasAll(extra + ToMap(m));
    assert ElementsOf(Sorted(m.sources)) == m.sources;
  }

  lemma FromMapOfToMap(m: FileMetadata)
    requires SingleLine(m.description)
    ensures FromMap(ToMap(m)) == Success(m)
  {
    FromToMap(m, map[]);
    assert map[] + ToMap(m) == ToMap(m);
  }

  lemma ToMapInjective(a: FileMetadata, b: FileMetadata)
    requires SingleLine(a.description) && SingleLine(b.description)
    requires ToMap(a) == ToMap(b)
    ensures a == b
  {
    FromMapOfToMap(a);
    FromMapOfToMap(b);
  }

  lemma FromMapSingleLine(values: TextMap)
    requires FromMap(values).Success?
    ensures SingleLine(FromMap(values).value.description)
  {
  }

  /** `stored` followed by the members of `extra` it lacks, first occurrences in order. */
  function MergeAliases(stored: seq<string>, extra: seq<string>): seq<string>
    decreases |extra|
  {
    if extra == [] then stored
    else MergeAliases(if extra[0] in stored then stored else stored + [extra[0]], extra[1..])
  }

  /** Stored aliases are never lost, reordered or repeated; exactly the missing ones are added. */
  lemma {:induction false} MergeKeepsStored(stored: seq<string>, extra: seq<string>)
    ensures var merged := MergeAliases(stored, extra);
            && stored <= merged
            && (forall a :: a in merged <==> a in stored || a in extra)
            && (forall i, j :: |stored| <= i < |merged| && 0 <= j < i ==> merged[j] != merged[i])
    decreases |extra|
  {
    if extra == [] {
    } else {
      var next := if extra[0] in stored then stored else stored + [extra[0]];
      MergeKeepsStored(next, extra[1..]);
      assert extra == [extra[0]] + extra[1..];
      assert forall a :: a in next <==> a in stored || a == extra[0];
      var merged := MergeAliases(stored, extra);
      assert next <= merged;
      assert forall j :: 0 <= j < |next| ==> merged[j] == next[j];
    }
  }

  /** `a` turns up in `extra` before any `b` does. */
  predicate FirstBefore(extra: seq<string>, a: string, b: string) {
    exists i :: 0 <= i < |extra| && extra[i] == a && b !in extra[..i + 1]
  }

  /** The aliases added come in the order in which they were given. */
  lemma {:induction false} MergeKeepsOrder(stored: seq<string>, extra: seq<string>, i: nat, j: nat)
    requires |stored| <= i < j < |MergeAliases(stored, extra)|
    ensures FirstBefore(extra, MergeAliases(stored, extra)[i], MergeAliases(stored, extra)[j])
    decreases |extra|
  {
    if extra == [] {
    } else {
      var merged := MergeAliases(stored, extra);
      var next := if extra[0] in stored then stored else stored + [extra[0]];
      LaterDiffers(stored, extra, j);
      hide MergeAliases, FirstBefore;
      if i < |next| {
        AddedFirst(stored, extra, merged[j]);
      } else {
        MergeKeepsOrder(next, extra[1..], i, j);
        FirstLater(extra, merged[i], merged[j]);
      }
    }
  }

  /** What is added after the first given alias is another one. */
  lemma LaterDiffers(stored: seq<string>, extra: seq<string>, j: nat)
    requires extra != [] && |stored| < j < |MergeAliases(stored, extra)|
    ensures MergeAliases(stored, extra)[j] != extra[0]
    ensures var next := if extra[0] in stored then stored else stored + [extra[0]];
            next <= MergeAliases(stored, extra) == MergeAliases(next, extra[1..])
  {
    var next := if extra[0] in stored then stored else stored + [extra[0]];
    MergeKeepsStored(next, extra[1..]);
    var merged := MergeAliases(next, extra[1..]);
    var m :| 0 <= m < |next| && next[m] == extra[0];
    assert merged[m] == next[m];
  }

  lemma AddedFirst(stored: seq<string>, extra: seq<string>, b: string)
    requires extra != [] && extra[0] != b
    ensures FirstBefore(extra, extra[0], b)
  {
    assert extra[..0 + 1] == [extra[0]];
  }

  lemma FirstLater(extra: seq<string>, a: string, b: string)
    requires extra != [] && FirstBefore(extra[1..], a, b) && extra[0] != b
    ensures FirstBefore(extra, a, b)
  {
    var k :| 0 <= k < |extra[1..]| && extra[1..][k] == a && b !in extra[1..][..k + 1];
    assert extra[..k + 2] == [extra[0]] + extra[1..][..k + 1] && extra[k + 1] == a;
  }

  lemma {:induction false} MergeStep(stored: seq<string>, extra: seq<string>, i: nat)
    requires i < |extra|
    ensures var so := MergeAliases(stored, extra[..i]);
            MergeAliases(stored, extra[..i + 1]) == if extra[i] in so then so else so + [extra[i]]
    decreases i
  {
    if i == 0 {
      assert extra[..1] == [extra[0]];
    } else {
      var next := if extra[0] in stored then stored else stored + [extra[0]];
      MergeStep(next, extra[1..], i - 1);
      assert extra[..i][1..] == extra[1..][..i - 1];
      assert extra[..i + 1][1..] == extra[1..][..i];
    }
  }

  /** What a partial update stamps: aliases unioned, description replaced if given, source added. */
  function Merged(stored: FileMetadata, source: string, aliases: Option<seq<string>>,
                  description: Option<Text>, now: int): FileMetadata
  {
    stored.(aliases := if aliases.Some? then MergeAliases(stored.aliases, aliases.value) else stored.aliases,
            description := if description.Some? then description.value else stored.description,
            sources := stored.sources + {source},
            lastUpdated := now)
  }

  /** What a partial update may make of the stored metadata, apart from the time: the description given,
      or else the stored one; the stored sources and the given one; the stored aliases and behind them
      the given ones that were missing, once each and in the order given. */
  ghost predicate Restamps(stored: FileMetadata, m: FileMetadata, source: string, aliases: Option<seq<string>>,
                     description: Option<Text>)
  {
    var given := if aliases.Some? then aliases.value else [];
    && (description.Some? ==> m.description == description.value)
    && (description.None? ==> m.description == stored.description)
    && (forall s :: s in m.sources <==> s in stored.sources || s == source)
    && stored.aliases <= m.aliases
    && (forall a :: a in m.aliases <==> a in stored.aliases || a in given)
    && (forall i, j :: |stored.aliases| <= i < |m.aliases| && 0 <= j < i ==> m.aliases[j] != m.aliases[i])
    && (forall i, j :: |stored.aliases| <= i < j < |m.aliases| ==> FirstBefore(given, m.aliases[i], m.aliases[j]))
  }

  lemma MergedRestamps(stored: FileMetadata, source: string, aliases: Option<seq<string>>, description: Option<Text>, now: int)
    ensures Restamps(stored, Merged(stored, source, aliases, description, now), source, aliases, description)
    ensures Merged(stored, source, aliases, description, now).lastUpdated == now
  {
    var given := if aliases.Some? then aliases.value else [];
    MergeKeepsStored(stored.aliases, given);
    forall i, j | |stored.aliases| <= i < j < |MergeAliases(stored.aliases, given)|
      ensures FirstBefore(given, MergeAliases(stored.aliases, given)[i], MergeAliases(stored.aliases, given)[j])
    {
      MergeKeepsOrder(stored.aliases, given, i, j);
    }
  }

  method MergeMetadata(stored: FileMetadata, source: string, aliases: Option<seq<string>>,
                       description: Option<Text>, now: int) returns (m: FileMetadata)
    ensures m == Merged(stored, source, aliases, description, now)
    ensures Restamps(stored, m, source, aliases, description) && m.lastUpdated == now
  {
    var merged := stored.aliases;
    var extra := if aliases.Some? then aliases.value else [];
    for i := 0 to |extra|
      invariant merged == MergeAliases(stored.aliases, extra[..i])
    {
      MergeStep(stored.aliases, extra, i);
      if extra[i] !in merged {
        merged := merged + [extra[i]];
      }
    }
    assert extra[..|extra|] == extra;
    MergedRestamps(stored, source, aliases, description, now);
    m := stored.(aliases := merged,
                 description := if description.Some? then description.value else stored.description,
                 sources := stored.sources + {source},
                 lastUpdated := now);
  }
}
