/** How a listing is kept in the cache: a JSON object tagged with its token. Whatever the cache
    returns is checked before it is believed. */
module ListingCodec {
  import opened Wrappers
  import opened KeyOrder
  import opened Paths
  import opened Metadata
  import opened Listing
  import opened PagedScan
  import opened MemoryIndex
  import IndexRead
  import S = Storage

  datatype Json =
    | Null
    | Bool(b: bool)
    | Number(n: int)
    | Str(s: string)
    | Array(items: seq<Json>)
    | Object(fields: map<string, Json>)

  /** How stored texts, instants and version tokens are spelled as strings. */
  datatype Spelling = Spelling(
    spell: Text -> string, read: string -> Text, spellVersion: S.Version -> string, readVersion: string -> S.Version)

  /** Every text and every version comes back from its spelling. */
  ghost predicate Faithful(c: Spelling) {
    (forall t :: c.read(c.spell(t)) == t) && (forall v :: c.readVersion(c.spellVersion(v)) == v)
  }

  /** How `isoformat` writes an instant. */
  const ISO := Otherwise(1, false)

  const TOMBSTONE := Object(map["tombstone" := Bool(true)])

  const ENTRY_FIELDS := {"path", "version", "description", "aliases", "sources", "last_updated"}

  function Strings(items: seq<string>): (out: seq<Json>)
    ensures |out| == |items| && forall i :: 0 <= i < |items| ==> out[i] == Str(items[i])
  {
    seq(|items|, i requires 0 <= i < |items| => Str(items[i]))
  }

  function EncodeEntry(c: Spelling, e: FileEntry): Json {
    Object(map["path" := Str(e.path),
               "version" := Str(c.spellVersion(e.version)),
               "description" := Str(c.spell(e.metadata.description)),
               "aliases" := Array(Strings(e.metadata.aliases)),
               "sources" := Array(Strings(Sorted(e.metadata.sources))),
               "last_updated" := Str(c.spell(Instant(e.metadata.lastUpdated, ISO)))])
  }

  function EncodeEntries(c: Spelling, entries: seq<FileEntry>): (out: seq<Json>)
    ensures |out| == |entries| && forall i :: 0 <= i < |entries| ==> out[i] == EncodeEntry(c, entries[i])
  {
    seq(|entries|, i requires 0 <= i < |entries| => EncodeEntry(c, entries[i]))
  }

  function EncodeListing(c: Spelling, token: string, entries: seq<FileEntry>): Json {
    Object(map["token" := Str(token), "entries" := Array(EncodeEntries(c, entries))])
  }

  /** The items of an array of strings. */
  function StringList(j: Json): Option<seq<string>> {
    if !j.Array? || exists i :: 0 <= i < |j.items| && !j.items[i].Str? then None
    else Some(seq(|j.items|, i requires 0 <= i < |j.items| && j.items[i].Str? => j.items[i].s))
  }

  lemma StringListOf(items: seq<string>)
    ensures StringList(Array(Strings(items))) == Some(items)
  {
    var j := Array(Strings(items));
    assert seq(|j.items|, i requires 0 <= i < |j.items| && j.items[i].Str? => j.items[i].s) == items;
  }

  function DecodeEntry(c: Spelling, raw: Json, prefix: Key): Option<FileEntry> {
    if !raw.Object? || raw.fields.Keys != ENTRY_FIELDS then None
    else
      var f := raw.fields;
      var aliases, sources := StringList(f["aliases"]), StringList(f["sources"]);
      if !f["path"].Str? || !f["version"].Str? || !f["description"].Str? || !f["last_updated"].Str?
         || aliases.None? || sources.None? then None
      else if !ValidPath(f["path"].s) || !(prefix <= f["path"].s) then None
      else
        var description, updated := c.read(f["description"].s), c.read(f["last_updated"].s);
        if !SingleLine(description) || !updated.Instant? then None
        else Some(FileEntry(f["path"].s,
                            FileMetadata(description, aliases.value, ElementsOf(sources.value), updated.micros),
                            c.readVersion(f["version"].s)))
  }

  lemma EncodedFields(c: Spelling, e: FileEntry)
    ensures var raw := EncodeEntry(c, e);
            && raw.Object? && raw.fields.Keys == ENTRY_FIELDS
            && raw.fields["path"] == Str(e.path)
            && raw.fields["version"] == Str(c.spellVersion(e.version))
            && raw.fields["description"] == Str(c.spell(e.metadata.description))
            && raw.fields["aliases"] == Array(Strings(e.metadata.aliases))
            && raw.fields["sources"] == Array(Strings(Sorted(e.metadata.sources)))
            && raw.fields["last_updated"] == Str(c.spell(Instant(e.metadata.lastUpdated, ISO)))
  {
    assert EncodeEntry(c, e).fields.Keys == ENTRY_FIELDS;
  }

  lemma EntryComesBack(c: Spelling, e: FileEntry, prefix: Key)
    requires Faithful(c) && ValidPath(e.path) && prefix <= e.path && SingleLine(e.metadata.description)
    ensures DecodeEntry(c, EncodeEntry(c, e), prefix) == Some(e)
  {
    hide ValidPath, SingleLine, EncodeEntry, StringList;
    EncodedFields(c, e);
    StringListOf(e.metadata.aliases);
    StringListOf(Sorted(e.metadata.sources));
    assert ElementsOf(Sorted(e.metadata.sources)) == e.metadata.sources;
  }

  /** The entries that decode: objects with these six fields and no other, the path well-formed and under
      the prefix, the description of one line, and the time an instant, in whatever layout. */
  lemma DecodeEntryIff(c: Spelling, raw: Json, prefix: Key, e: FileEntry)
    ensures DecodeEntry(c, raw, prefix) == Some(e)
            <==> && raw.Object?
                 && raw.fields.Keys == {"path", "version", "description", "aliases", "sources", "last_updated"}
                 && ValidPath(e.path) && prefix <= e.path && SingleLine(e.metadata.description)
                 && raw.fields["path"] == Str(e.path) && raw.fields["aliases"] == Array(Strings(e.metadata.aliases))
                 && (exists s :: raw.fields["version"] == Str(s) && c.readVersion(s) == e.version)
                 && (exists s :: raw.fields["description"] == Str(s) && c.read(s) == e.metadata.description)
                 && (exists items :: raw.fields["sources"] == Array(Strings(items)) && ElementsOf(items) == e.metadata.sources)
                 && (exists s, layout :: raw.fields["last_updated"] == Str(s)
                                         && c.read(s) == Instant(e.metadata.lastUpdated, layout))
  {
    hide ValidPath, SingleLine, StringList;
    if raw.Object? && raw.fields.Keys == ENTRY_FIELDS {
      StringListIff(raw.fields["aliases"]);
      StringListIff(raw.fields["sources"]);
      if DecodeEntry(c, raw, prefix) == Some(e) {
        var f := raw.fields;
        assert f["version"] == Str(f["version"].s) && f["description"] == Str(f["description"].s);
        assert c.read(f["last_updated"].s) == Instant(e.metadata.lastUpdated, c.read(f["last_updated"].s).layout);
        assert f["last_updated"] == Str(f["last_updated"].s);
        assert f["sources"] == Array(Strings(StringList(f["sources"]).value));
      } else if items :| raw.fields["sources"] == Array(Strings(items)) && ElementsOf(items) == e.metadata.sources {
        StringListOf(items);
        StringListOf(e.metadata.aliases);
      }
    }
  }

  lemma StringListIff(j: Json)
    ensures StringList(j).Some? ==> j == Array(Strings(StringList(j).value))
  {
    if StringList(j).Some? {
      assert j.items == Strings(StringList(j).value);
    }
  }

  /** Whatever decodes is a well-formed file under the prefix. */
  lemma DecodedEntry(c: Spelling, raw: Json, prefix: Key)
    requires DecodeEntry(c, raw, prefix).Some?
    ensures var e := DecodeEntry(c, raw, prefix).value;
            ValidPath(e.path) && prefix <= e.path && SingleLine(e.metadata.description)
  {
  }

  function TaggedEntries(raw: Json, token: string): Option<seq<Json>> {
    if raw.Object? && "token" in raw.fields && raw.fields["token"] == Str(token)
       && "entries" in raw.fields && raw.fields["entries"].Array?
    then Some(raw.fields["entries"].items) else None
  }

  /** The decoded entries stand for the items, one each, and no path appears twice. */
  predicate Decodes(c: Spelling, items: seq<Json>, prefix: Key, entries: seq<FileEntry>) {
    && |entries| == |items|
    && (forall i :: 0 <= i < |items| ==> DecodeEntry(c, items[i], prefix) == Some(entries[i]))
    && DistinctPaths(entries)
  }

  /** A listing read from the cache: every entry must decode, with no path twice, or it is a miss. */
  method DecodeListing(c: Spelling, raw: Json, token: string, prefix: Key) returns (r: Option<seq<FileEntry>>)
    ensures r.Some? ==> TaggedEntries(raw, token).Some? && Decodes(c, TaggedEntries(raw, token).value, prefix, r.value)
    ensures r.None? ==> TaggedEntries(raw, token).None?
                        || forall entries :: !Decodes(c, TaggedEntries(raw, token).value, prefix, entries)
  {
    hide DecodeEntry;
    var items := TaggedEntries(raw, token);
    if items.None? {
      return None;
    }
    var entries: seq<FileEntry> := [];
    var paths: set<Key> := {};
    for i := 0 to |items.value|
      invariant |entries| == i && DistinctPaths(entries)
      invariant forall j :: 0 <= j < i ==> DecodeEntry(c, items.value[j], prefix) == Some(entries[j])
      invariant paths == set j | 0 <= j < i :: entries[j].path
    {
      var entry := DecodeEntry(c, items.value[i], prefix);
      if entry.None? || entry.value.path in paths {
        NothingDecodes(c, items.value, prefix, entries, i);
        return None;
      }
      paths := paths + {entry.value.path};
      entries := entries + [entry.value];
    }
    return Some(entries);
  }

  lemma NothingDecodes(c: Spelling, items: seq<Json>, prefix: Key, seen: seq<FileEntry>, i: nat)
    requires i < |items| && |seen| == i
    requires forall j :: 0 <= j < i ==> DecodeEntry(c, items[j], prefix) == Some(seen[j])
    requires var entry := DecodeEntry(c, items[i], prefix);
             entry.None? || exists j :: 0 <= j < i && seen[j].path == entry.value.path
    ensures forall entries :: !Decodes(c, items, prefix, entries)
  {
    hide DecodeEntry;
    var entry := DecodeEntry(c, items[i], prefix);
    if entry.Some? {
      var j :| 0 <= j < i && seen[j].path == entry.value.path;
      assert DecodeEntry(c, items[j], prefix) == Some(seen[j]);
    }
  }

  /** A cached value that decodes under the token and prefix, and to what. */
  ghost predicate Hit(c: Spelling, raw: Json, token: string, prefix: Key, entries: seq<FileEntry>) {
    TaggedEntries(raw, token).Some? && Decodes(c, TaggedEntries(raw, token).value, prefix, entries)
  }

  lemma HitUnique(c: Spelling, raw: Json, token: string, prefix: Key, a: seq<FileEntry>, b: seq<FileEntry>)
    requires Hit(c, raw, token, prefix, a) && Hit(c, raw, token, prefix, b)
    ensures a == b
  {
    hide DecodeEntry;
    forall i | 0 <= i < |a|
      ensures a[i] == b[i]
    {
      assert DecodeEntry(c, TaggedEntries(raw, token).value[i], prefix) == Some(a[i]);
    }
  }

  /** What every hit is: well-formed paths under the prefix, each once. */
  lemma HitIsListing(c: Spelling, raw: Json, token: string, prefix: Key, entries: seq<FileEntry>)
    requires Hit(c, raw, token, prefix, entries)
    ensures AllValid(entries) && DistinctPaths(entries) && IndexRead.AllUnder(entries, prefix)
  {
    hide DecodeEntry, ValidPath;
    var items := TaggedEntries(raw, token).value;
    forall i | 0 <= i < |entries|
      ensures ValidPath(entries[i].path) && prefix <= entries[i].path
    {
      DecodedEntry(c, items[i], prefix);
    }
  }

  predicate Cacheable(entries: seq<FileEntry>, prefix: Key) {
    && DistinctPaths(entries)
    && forall i :: 0 <= i < |entries| ==> ValidPath(entries[i].path) && prefix <= entries[i].path
                                          && SingleLine(entries[i].metadata.description)
  }

  /** A stored listing is a hit under its own token, with exactly its entries, and a miss under any other. */
  lemma ListingComesBack(c: Spelling, token: string, token': string, prefix: Key, entries: seq<FileEntry>)
    requires Faithful(c) && Cacheable(entries, prefix)
    ensures forall decoded :: Hit(c, EncodeListing(c, token, entries), token', prefix, decoded)
                              <==> token' == token && decoded == entries
  {
    hide DecodeEntry, EncodeEntry, ValidPath, SingleLine, DistinctPaths, Faithful;
    var raw := EncodeListing(c, token, entries);
    if token' == token {
      forall i | 0 <= i < |entries|
        ensures DecodeEntry(c, EncodeEntries(c, entries)[i], prefix) == Some(entries[i])
      {
        EntryComesBack(c, entries[i], prefix);
      }
      assert Hit(c, raw, token, prefix, entries);
      forall decoded | Hit(c, raw, token, prefix, decoded)
        ensures decoded == entries
      {
        HitUnique(c, raw, token, prefix, decoded, entries);
      }
    } else {
      assert TaggedEntries(raw, token').None?;
    }
  }

  /** The tombstone is a miss under every token. */
  lemma TombstoneMisses(c: Spelling, token: string, prefix: Key, decoded: seq<FileEntry>)
    ensures TOMBSTONE == Object(map["tombstone" := Bool(true)]) && !Hit(c, TOMBSTONE, token, prefix, decoded)
  {
  }

  /** A listing of one entity is never a hit for another, unless it is empty. */
  lemma OtherEntityMisses(c: Spelling, raw: Json, token: string, scope: string, entity: string,
                          scope': string, entity': string, entries: seq<FileEntry>, entries': seq<FileEntry>)
    requires '/' !in scope && '/' !in entity && '/' !in scope' && '/' !in entity'
    requires Hit(c, raw, token, EntityPrefix(scope, entity), entries)
    requires Hit(c, raw, token, EntityPrefix(scope', entity'), entries')
    ensures entries == [] || (scope == scope' && entity == entity')
  {
    hide Decodes, EntityPrefix;
    HitIsListing(c, raw, token, EntityPrefix(scope, entity), entries);
    HitIsListing(c, raw, token, EntityPrefix(scope', entity'), entries');
    if entries != [] {
      SamePath(c, raw, token, EntityPrefix(scope, entity), EntityPrefix(scope', entity'), entries, entries');
      assert entries[0] in entries && entries'[0] in entries';
      EntitiesDisjoint(scope, entity, scope', entity', entries[0].path);
    }
  }

  lemma SamePath(c: Spelling, raw: Json, token: string, prefix: Key, prefix': Key, entries: seq<FileEntry>,
                 entries': seq<FileEntry>)
    requires Hit(c, raw, token, prefix, entries) && Hit(c, raw, token, prefix', entries') && entries != []
    ensures entries' != [] && entries'[0].path == entries[0].path
  {
    var items := TaggedEntries(raw, token).value;
    assert DecodeEntry(c, items[0], prefix) == Some(entries[0]) && DecodeEntry(c, items[0], prefix') == Some(entries'[0]);
  }

  /** What a complete listing reads is what the cache can give back. */
  lemma DrainedIsCacheable(hist: seq<S.Flat>, prefix: Key, began: nat, entries: seq<FileEntry>)
    requires ScanOk(hist, 0, prefix, Scan(began, 0, entries, None, true))
    ensures Cacheable(entries, prefix)
  {
    IndexRead.ScanIsListing(hist, prefix, began, entries);
    hide ScanOk, ValidPath, SingleLine, FromMap;
    forall i | 0 <= i < |entries|
      ensures SingleLine(entries[i].metadata.description) && prefix <= entries[i].path
    {
      var e := entries[i];
      assert e in entries && SeenSince(entries, hist, began, e.path);
      var t :| began <= t < |hist| && Sees(entries, hist[t], e.path);
      IndexRead.StoredAsShown(entries, hist[t], e);
      FromMapSingleLine(hist[t].objects[e.path].metadata);
    }
  }
}
