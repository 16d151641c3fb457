/** The storage contract: a flat map from keys to versioned objects, with a supply of version
    tokens that never repeats. */
module Storage {
  import opened Wrappers
  import opened KeyOrder
  import opened Utf8
  import opened Metadata

  type Version = nat

  datatype Object = Object(data: seq<Byte>, metadata: TextMap, version: Version)

  datatype Listed = Listed(key: Key, metadata: TextMap, version: Version)

  datatype Flat = Flat(objects: map<Key, Object>, next: Version)

  /** Every token in use was issued already. */
  predicate Issued(f: Flat) {
    forall k :: k in f.objects ==> f.objects[k].version < f.next
  }

  function Get(f: Flat, key: Key): Option<Object> {
    if key in f.objects then Some(f.objects[key]) else None
  }

  function Put(f: Flat, key: Key, data: seq<Byte>, metadata: TextMap): Flat {
    Flat(f.objects[key := Object(data, metadata, f.next)], f.next + 1)
  }

  /** The precondition of a conditional write: None means the object must not exist. */
  predicate AtVersion(f: Flat, key: Key, expected: Option<Version>) {
    match expected
    case None => key !in f.objects
    case Some(v) => key in f.objects && f.objects[key].version == v
  }

  function Remove(f: Flat, key: Key): Flat {
    Flat(f.objects - {key}, f.next)
  }

  function ListedAt(f: Flat, key: Key): Listed
    requires key in f.objects
  {
    Listed(key, f.objects[key].metadata, f.objects[key].version)
  }

  function ListedAll(f: Flat, keys: seq<Key>): (page: seq<Listed>)
    requires forall k :: k in keys ==> k in f.objects
    ensures |page| == |keys|
    ensures forall i :: 0 <= i < |keys| ==> page[i] == ListedAt(f, keys[i])
  {
    seq(|keys|, i requires 0 <= i < |keys| => ListedAt(f, keys[i]))
  }

  function ListPage(f: Flat, prefix: Key, after: Option<Key>, limit: nat): (page: seq<Listed>)
    ensures |page| <= limit
  {
    ListedAll(f, PageKeys(f.objects.Keys, prefix, after, limit))
  }

  /** All keys under a prefix, listed at once. */
  function Listing(f: Flat, prefix: Key): seq<Listed> {
    ListedAll(f, Sorted(Beyond(f.objects.Keys, prefix, None)))
  }

  /** What any number of puts and deletes by anyone can turn `a` into. */
  predicate Evolves(a: Flat, b: Flat) {
    && a.next <= b.next
    && forall k :: k in b.objects ==>
         b.objects[k].version >= a.next || (k in a.objects && b.objects[k] == a.objects[k])
  }

  lemma EvolvesTransitive(a: Flat, b: Flat, c: Flat)
    requires Evolves(a, b) && Evolves(b, c)
    ensures Evolves(a, c)
  {
  }

  /** A version token names one write forever: whatever happens in between, an object found
      later at an already issued version is the very object, at the same key, that had it. */
  lemma VersionNamesOneWrite(a: Flat, b: Flat, key: Key)
    requires Evolves(a, b) && key in b.objects && b.objects[key].version < a.next
    ensures key in a.objects && a.objects[key] == b.objects[key]
  {
  }
}
