/** The in-memory backend: the storage contract, held in one dictionary and one counter. */
module MemoryStorage {
  import opened Wrappers
  import opened KeyOrder
  import opened Utf8
  import opened Metadata
  import S = Storage

  datatype PutError = PreconditionFailed(key: Key)

  class InMemoryStorage {
    var objects: map<Key, S.Object>
    var nextToken: S.Version

    ghost function State(): S.Flat
      reads this
    {
      S.Flat(objects, nextToken)
    }

    ghost predicate Valid()
      reads this
    {
      S.Issued(State())
    }

    constructor ()
      ensures Valid() && State() == S.Flat(map[], 1)
    {
      objects, nextToken := map[], 1;
    }

    method Get(key: Key) returns (r: Option<S.Object>)
      ensures r == S.Get(State(), key)
    {
      r := if key in objects then Some(objects[key]) else None;
    }

    method Put(key: Key, data: seq<Byte>, metadata: TextMap) returns (token: S.Version)
      requires Valid()
      modifies this
      ensures Valid() && State() == S.Put(old(State()), key, data, metadata)
      ensures token == old(nextToken) && S.Get(State(), key) == Some(S.Object(data, metadata, token))
      ensures S.Evolves(old(State()), State())
    {
      token := nextToken;
      nextToken := nextToken + 1;
      objects := objects[key := S.Object(data, metadata, token)];
    }

    method PutIfVersion(key: Key, data: seq<Byte>, metadata: TextMap, expected: Option<S.Version>)
      returns (r: Result<S.Version, PutError>)
      requires Valid()
      modifies this
      ensures Valid() && S.Evolves(old(State()), State())
      ensures r.Success? <==> S.AtVersion(old(State()), key, expected)
      ensures r.Success? ==> State() == S.Put(old(State()), key, data, metadata) && r.value == old(nextToken)
      ensures r.Failure? ==> State() == old(State()) && r.error == PreconditionFailed(key)
    {
      var current := if key in objects then Some(objects[key].version) else None;
      if current != expected {
        return Failure(PreconditionFailed(key));
      }
      var token := Put(key, data, metadata);
      return Success(token);
    }

    method DeleteIfVersion(key: Key, expected: S.Version) returns (r: Result<(), PutError>)
      requires Valid()
      modifies this
      ensures Valid() && S.Evolves(old(State()), State())
      ensures r.Success? <==> S.AtVersion(old(State()), key, Some(expected))
      ensures State() == if r.Success? then S.Remove(old(State()), key) else old(State())
    {
      if key !in objects || objects[key].version != expected {
        return Failure(PreconditionFailed(key));
      }
      objects := objects - {key};
      return Success(());
    }

    method ListPage(prefix: Key, after: Option<Key>, limit: nat) returns (page: seq<S.Listed>)
      ensures page == S.ListPage(State(), prefix, after, limit)
    {
      var keys := Sorted(Under(objects.Keys, prefix));
      if after.Some? {
        keys := FilterAfter(keys, after.value);
      }
      FilteredIsWindow(objects.Keys, prefix, after);
      keys := Take(keys, limit);
      assert keys == PageKeys(objects.Keys, prefix, after, limit);
      page := S.ListedAll(S.Flat(objects, nextToken), keys);
    }
  }

  function Under(keys: set<Key>, prefix: Key): set<Key> {
    set k | k in keys && prefix <= k
  }

  /** Sorting the matching keys and then dropping those up to the cursor gives the window. */
  lemma FilteredIsWindow(keys: set<Key>, prefix: Key, after: Option<Key>)
    ensures var matching := Sorted(Under(keys, prefix));
            Sorted(Beyond(keys, prefix, after))
            == if after.Some? then FilterAfter(matching, after.value) else matching
  {
    var under := Under(keys, prefix);
    if after.Some? {
      SortedIs(Beyond(keys, prefix, after), FilterAfter(Sorted(under), after.value));
    } else {
      assert under == Beyond(keys, prefix, None);
    }
  }

  /** The keys after `after`, in order. */
  function FilterAfter(keys: seq<Key>, after: Key): (r: seq<Key>)
    requires Ascending(keys)
    ensures Ascending(r)
    ensures forall k :: k in r <==> k in keys && Lt(after, k)
  {
    if keys == [] then []
    else
      var rest := FilterAfter(keys[1..], after);
      assert keys == [keys[0]] + keys[1..];
      if Lt(after, keys[0]) then
        assert forall k :: k in rest ==> k in keys[1..];
        assert forall k :: k in rest ==> Lt(keys[0], k);
        AscendingCons(keys[0], rest);
        [keys[0]] + rest
      else rest
  }
}
