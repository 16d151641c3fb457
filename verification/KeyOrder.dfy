/** Storage keys are strings, compared code point by code point. Listings are ascending
    key sequences, and one page of a listing is a window of the sorted key set. */
module KeyOrder {
  import opened Wrappers

  type Key = string

  predicate Lt(a: Key, b: Key) {
    b != [] && (a == [] || a[0] < b[0] || (a[0] == b[0] && Lt(a[1..], b[1..])))
  }

  predicate Le(a: Key, b: Key) {
    a == b || Lt(a, b)
  }

  lemma {:induction false} LtIrreflexive(a: Key)
    ensures !Lt(a, a)
  {
    if a == [] {
    } else {
      LtIrreflexive(a[1..]);
    }
  }

  lemma {:induction false} LtTransitive(a: Key, b: Key, c: Key)
    requires Lt(a, b) && Lt(b, c)
    ensures Lt(a, c)
  {
    if a == [] || a[0] != b[0] || b[0] != c[0] {
    } else {
      LtTransitive(a[1..], b[1..], c[1..]);
    }
  }

  lemma {:induction false} LtTotal(a: Key, b: Key)
    ensures Lt(a, b) || a == b || Lt(b, a)
  {
    if a == [] || b == [] || a[0] != b[0] {
    } else {
      LtTotal(a[1..], b[1..]);
      assert a == [a[0]] + a[1..] && b == [b[0]] + b[1..];
    }
  }

  lemma LtAsymmetric(a: Key, b: Key)
    requires Lt(a, b)
    ensures !Lt(b, a) && a != b
  {
    LtIrreflexive(a);
    if Lt(b, a) {
      LtTransitive(a, b, a);
    }
  }

  predicate Ascending(s: seq<Key>) {
    forall i, j :: 0 <= i < j < |s| ==> Lt(s[i], s[j])
  }

  predicate IsLeast(m: Key, keys: set<Key>) {
    m in keys && forall k :: k in keys ==> Le(m, k)
  }

  lemma LeastOfTwo(x: Key, rest: set<Key>, m: Key) returns (least: Key)
    requires IsLeast(m, rest)
    ensures IsLeast(least, rest + {x})
  {
    LtTotal(x, m);
    if Lt(x, m) {
      forall k | k in rest
        ensures Le(x, k)
      {
        if m != k {
          LtTransitive(x, m, k);
        }
      }
      least := x;
    } else {
      least := m;
    }
  }

  lemma {:induction false} LeastExists(keys: set<Key>) returns (m: Key)
    requires keys != {}
    ensures IsLeast(m, keys)
  {
    var x :| x in keys;
    var rest := keys - {x};
    assert keys == rest + {x};
    if rest == {} {
      m := x;
    } else {
      m := LeastExists(rest);
      m := LeastOfTwo(x, rest, m);
    }
  }

  lemma LeastUnique(keys: set<Key>, m: Key, n: Key)
    requires IsLeast(m, keys) && IsLeast(n, keys)
    ensures m == n
  {
    if m != n {
      LtAsymmetric(m, n);
    }
  }

  function Least(keys: set<Key>): (m: Key)
    requires keys != {}
    ensures IsLeast(m, keys)
  {
    assert exists m :: IsLeast(m, keys) by {
      var least := LeastExists(keys);
    }
    assert forall m, n | IsLeast(m, keys) && IsLeast(n, keys) :: m == n by {
      forall m, n | IsLeast(m, keys) && IsLeast(n, keys)
        ensures m == n
      {
        LeastUnique(keys, m, n);
      }
    }
    var m :| m in keys && IsLeast(m, keys);
    m
  }

  lemma AscendingCons(m: Key, rest: seq<Key>)
    requires Ascending(rest) && forall k :: k in rest ==> Lt(m, k)
    ensures Ascending([m] + rest)
  {
    var s := [m] + rest;
    forall i, j | 0 <= i < j < |s|
      ensures Lt(s[i], s[j])
    {
      assert s[j] == rest[j - 1];
      if i > 0 {
        assert s[i] == rest[i - 1];
      }
    }
  }

  /** The keys of a set in ascending order, each once. */
  function Sorted(keys: set<Key>): (s: seq<Key>)
    ensures Ascending(s)
    ensures forall k :: k in s <==> k in keys
    ensures |s| == |keys|
  {
    if keys == {} then []
    else
      var m := Least(keys);
      var rest := Sorted(keys - {m});
      assert forall k :: k in rest ==> Lt(m, k);
      AscendingCons(m, rest);
      [m] + rest
  }

  /** An ascending sequence is determined by its elements. */
  lemma {:induction false} AscendingUnique(a: seq<Key>, b: seq<Key>)
    requires Ascending(a) && Ascending(b)
    requires forall k :: k in a <==> k in b
    ensures a == b
  {
    assert b != [] ==> b[0] in b;
    if a == [] {
    } else {
      assert a[0] in b && b != [];
      if a[0] != b[0] {
        assert b[0] in a;
        var i :| 0 <= i < |b| && b[i] == a[0];
        var j :| 0 <= j < |a| && a[j] == b[0];
        assert Lt(b[0], b[i]) && Lt(a[0], a[j]);
        LtAsymmetric(a[0], b[0]);
      }
      forall k
        ensures k in a[1..] <==> k in b[1..]
      {
        LtIrreflexive(a[0]);
        assert k in a <==> k == a[0] || k in a[1..];
        assert k in b <==> k == b[0] || k in b[1..];
      }
      AscendingUnique(a[1..], b[1..]);
      assert a == [a[0]] + a[1..] && b == [b[0]] + b[1..];
    }
  }

  lemma SortedIs(keys: set<Key>, s: seq<Key>)
    requires Ascending(s)
    requires forall k :: k in s <==> k in keys
    ensures s == Sorted(keys)
  {
    AscendingUnique(s, Sorted(keys));
  }

  /** The keys a listing may still return: under `prefix`, and after the cursor if there is one. */
  function Beyond(keys: set<Key>, prefix: Key, after: Option<Key>): set<Key> {
    set k | k in keys && prefix <= k && (after.Some? ==> Lt(after.value, k))
  }

  function Take<T>(s: seq<T>, n: nat): (t: seq<T>) {
    if n < |s| then s[..n] else s
  }

  /** One page: the first `limit` keys beyond the cursor, ascending. */
  function PageKeys(keys: set<Key>, prefix: Key, after: Option<Key>, limit: nat): (page: seq<Key>)
    ensures Ascending(page) && |page| <= limit
    ensures forall k :: k in page ==> k in Beyond(keys, prefix, after)
  {
    var all := Sorted(Beyond(keys, prefix, after));
    assert forall k :: k in Take(all, limit) ==> k in all;
    Take(all, limit)
  }

  lemma SuffixElement(s: seq<Key>, n: nat, k: Key)
    requires Ascending(s) && 0 < n <= |s|
    ensures k in s[n..] <==> k in s && Lt(s[n - 1], k)
  {
    var rest, last := s[n..], s[n - 1];
    if k in rest {
      var i :| 0 <= i < |rest| && rest[i] == k;
      assert s[n + i] == k;
    }
    if k in s && Lt(last, k) {
      var i :| 0 <= i < |s| && s[i] == k;
      LtIrreflexive(last);
      LtAsymmetric(last, k);
      assert i >= n;
      assert rest[i - n] == k;
    }
  }

  lemma AscendingSuffix(s: seq<Key>, n: nat)
    requires Ascending(s) && n <= |s|
    ensures Ascending(s[n..])
  {
  }

  /** What follows position `n` of a sorted set is the sorted set of larger keys. */
  lemma SortedSuffix(keys: set<Key>, n: nat, larger: set<Key>)
    requires 0 < n <= |Sorted(keys)|
    requires larger == set k | k in keys && Lt(Sorted(keys)[n - 1], k)
    ensures Sorted(keys)[n..] == Sorted(larger)
  {
    var s := Sorted(keys);
    forall k
      ensures k in s[n..] <==> k in larger
    {
      SuffixElement(s, n, k);
    }
    AscendingSuffix(s, n);
    SortedIs(larger, s[n..]);
  }

  lemma BeyondAgain(keys: set<Key>, prefix: Key, after: Option<Key>, last: Key)
    requires last in Beyond(keys, prefix, after)
    ensures Beyond(keys, prefix, Some(last))
            == set k | k in Beyond(keys, prefix, after) && Lt(last, k)
  {
    forall k | k in keys && Lt(last, k)
      ensures after.Some? ==> Lt(after.value, k)
    {
      if after.Some? {
        LtTransitive(after.value, last, k);
      }
    }
  }

  /** A page and the window after its last key split the window before it, keys and order. */
  lemma PageSplit(keys: set<Key>, prefix: Key, after: Option<Key>, limit: nat)
    requires PageKeys(keys, prefix, after, limit) != []
    ensures var page := PageKeys(keys, prefix, after, limit);
            var last := page[|page| - 1];
            && Sorted(Beyond(keys, prefix, after)) == page + Sorted(Beyond(keys, prefix, Some(last)))
            && (forall k :: k in Beyond(keys, prefix, Some(last)) <==>
                            k in Beyond(keys, prefix, after) && Lt(last, k))
  {
    var window := Beyond(keys, prefix, after);
    var page := PageKeys(keys, prefix, after, limit);
    var last := page[|page| - 1];
    var s := Sorted(window);
    assert s == page + s[|page|..] && last == s[|page| - 1];
    assert last in s;
    BeyondAgain(keys, prefix, after, last);
    SortedSuffix(window, |page|, Beyond(keys, prefix, Some(last)));
  }

  lemma RestOfPage(stored: set<Key>, prefix: Key, cursor: Option<Key>, size: nat, keys: seq<Key>) returns (rest: seq<Key>)
    requires keys == PageKeys(stored, prefix, cursor, size) && keys != []
    ensures rest == Sorted(Beyond(stored, prefix, Some(keys[|keys| - 1])))
    ensures Sorted(Beyond(stored, prefix, cursor)) == keys + rest
  {
    hide *;
    PageSplit(stored, prefix, cursor, size);
    rest := Sorted(Beyond(stored, prefix, Some(keys[|keys| - 1])));
  }

  /** A short page holds everything beyond its cursor. */
  lemma ShortPageIsAll(keys: set<Key>, prefix: Key, after: Option<Key>, limit: nat)
    requires |PageKeys(keys, prefix, after, limit)| < limit
    ensures PageKeys(keys, prefix, after, limit) == Sorted(Beyond(keys, prefix, after))
  {
  }

  lemma {:induction false} SubsetCardinality<T>(a: set<T>, b: set<T>)
    requires a <= b
    ensures |a| <= |b|
  {
    if a == {} {
    } else {
      var x :| x in a;
      SubsetCardinality(a - {x}, b - {x});
    }
  }

  /** A cursor inside the window leaves fewer keys ahead. */
  lemma CursorAdvances(keys: set<Key>, prefix: Key, cursor: Option<Key>, next: Key)
    requires next in Beyond(keys, prefix, cursor)
    ensures |Beyond(keys, prefix, Some(next))| < |Beyond(keys, prefix, cursor)|
  {
    BeyondAgain(keys, prefix, cursor, next);
    LtIrreflexive(next);
    var later, now := Beyond(keys, prefix, Some(next)), Beyond(keys, prefix, cursor);
    assert later <= now - {next};
    SubsetCardinality(later, now - {next});
  }
}
