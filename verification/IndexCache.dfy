/** The in-process index cache: a register per key, each value gone `ttl` after it was set. */
module IndexCache {
  import opened Wrappers
  import opened Paths
  import opened CacheProtocol

  type CacheKey = string

  /** What reading `key` at time `now` yields. */
  function ValueAt<V>(entries: map<CacheKey, Cell<V>>, key: CacheKey, now: nat): Option<V> {
    if key in entries && Live(entries[key], now) then Some(entries[key].value) else None
  }

  function AfterGet<V>(entries: map<CacheKey, Cell<V>>, key: CacheKey, now: nat): map<CacheKey, Cell<V>> {
    if key in entries && !Live(entries[key], now) then entries - {key} else entries
  }

  function AfterSet<V>(c: Config, entries: map<CacheKey, Cell<V>>, key: CacheKey, value: V, ttl: Option<nat>, now: nat)
    : map<CacheKey, Cell<V>>
  {
    entries[key := Cell(value, Expiry(c, now, ttl))]
  }

  class InMemoryIndexCache<V> {
    const config: Config
    var entries: map<CacheKey, Cell<V>>

    constructor (config: Config)
      ensures entries == map[] && this.config == config
    {
      this.config, entries := config, map[];
    }

    /** Dropping an expired entry changes no answer, now or later. */
    method Get(key: CacheKey, now: nat) returns (r: Option<V>)
      modifies this
      ensures r == ValueAt(old(entries), key, now) && entries == AfterGet(old(entries), key, now)
      ensures forall k: CacheKey, t: nat :: t >= now ==> ValueAt(entries, k, t) == ValueAt(old(entries), k, t)
    {
      if key !in entries {
        return None;
      }
      var cell := entries[key];
      if cell.expires.Some? && now >= cell.expires.value {
        entries := entries - {key};
        return None;
      }
      return Some(cell.value);
    }

    method Set(key: CacheKey, value: V, ttl: Option<nat>, now: nat)
      modifies this
      ensures entries == AfterSet(config, old(entries), key, value, ttl, now)
      ensures forall t: nat :: now <= t ==>
                ValueAt(entries, key, t)
                == if ttl.Some? && now + ttl.value <= config.maxClock && t >= now + ttl.value then None else Some(value)
      ensures forall k: CacheKey, t: nat :: k != key ==> ValueAt(entries, k, t) == ValueAt(old(entries), k, t)
    {
      var expires: Option<nat> := None;
      if ttl.Some? && now + ttl.value <= config.maxClock {
        expires := Some(now + ttl.value);
      }
      entries := entries[key := Cell(value, expires)];
    }
  }

  /** One call on the cache, at a clock reading. */
  datatype Call<V> =
    | GetCall(key: CacheKey, at: nat)
    | SetCall(key: CacheKey, value: V, ttl: Option<nat>, at: nat)

  function Replay<V>(c: Config, calls: seq<Call<V>>): map<CacheKey, Cell<V>> {
    if calls == [] then map[]
    else
      var before := Replay(c, calls[..|calls| - 1]);
      match calls[|calls| - 1]
      case GetCall(key, at) => AfterGet(before, key, at)
      case SetCall(key, value, ttl, at) => AfterSet(c, before, key, value, ttl, at)
  }

  predicate Monotone<V>(calls: seq<Call<V>>) {
    forall i, j :: 0 <= i < j < |calls| ==> calls[i].at <= calls[j].at
  }

  /** The last value set for the key, with its expiry. */
  function LastSet<V>(c: Config, calls: seq<Call<V>>, key: CacheKey): Option<Cell<V>> {
    if calls == [] then None
    else
      var last := calls[|calls| - 1];
      if last.SetCall? && last.key == key then Some(Cell(last.value, Expiry(c, last.at, last.ttl)))
      else LastSet(c, calls[..|calls| - 1], key)
  }

  /** Over any run on a clock that does not go back, each key is a register: reading it yields the
      last value set for that key, unless that has expired. */
  lemma {:induction false} RegisterPerKey<V>(c: Config, calls: seq<Call<V>>, key: CacheKey, now: nat)
    requires Monotone(calls) && (calls != [] ==> calls[|calls| - 1].at <= now)
    ensures var last := LastSet(c, calls, key);
            ValueAt(Replay(c, calls), key, now)
            == if last.Some? && Live(last.value, now) then Some(last.value.value) else None
    decreases |calls|
  {
    if calls == [] {
    } else {
      var shorter, last := calls[..|calls| - 1], calls[|calls| - 1];
      assert shorter != [] ==> shorter[|shorter| - 1].at <= last.at;
      RegisterPerKey(c, shorter, key, now);
      RegisterPerKey(c, shorter, key, last.at);
    }
  }

  /** A bounded ttl bounds the age of every value read, whatever the calls in between. */
  lemma {:induction false} ValueIsRecent<V>(c: Config, calls: seq<Call<V>>, key: CacheKey, now: nat, bound: nat)
    requires Monotone(calls) && (calls != [] ==> calls[|calls| - 1].at <= now) && now <= c.maxClock
    requires forall i :: 0 <= i < |calls| && calls[i].SetCall? ==> calls[i].ttl.Some? && calls[i].ttl.value <= bound
    requires ValueAt(Replay(c, calls), key, now).Some?
    ensures exists i :: 0 <= i < |calls| && calls[i].SetCall? && calls[i].key == key
                        && ValueAt(Replay(c, calls), key, now) == Some(calls[i].value) && now < calls[i].at + bound
  {
    RegisterPerKey(c, calls, key, now);
    var i := LastSetIndex(c, calls, key);
  }

  lemma {:induction false} LastSetIndex<V>(c: Config, calls: seq<Call<V>>, key: CacheKey) returns (i: nat)
    requires LastSet(c, calls, key).Some?
    ensures i < |calls| && calls[i].SetCall? && calls[i].key == key
    ensures LastSet(c, calls, key) == Some(Cell(calls[i].value, Expiry(c, calls[i].at, calls[i].ttl)))
    decreases |calls|
  {
    var last := calls[|calls| - 1];
    if last.SetCall? && last.key == key {
      i := |calls| - 1;
    } else {
      i := LastSetIndex(c, calls[..|calls| - 1], key);
    }
  }

  /** The two registers of an entity. */
  datatype Register = TokenRegister | ListingRegister

  function Mark(r: Register): string {
    match r
    case TokenRegister => "v1:token:"
    case ListingRegister => "v1:listing:"
  }

  function RegisterKey(prefix: CacheKey, r: Register, scope: string, entity: string): CacheKey {
    prefix + (Mark(r) + Slash(scope, entity))
  }

  /** Under one key prefix, every entity has two registers of its own. */
  lemma RegistersDistinct(prefix: CacheKey, r: Register, scope: string, entity: string,
                          r': Register, scope': string, entity': string)
    requires '/' !in scope && '/' !in scope'
    requires RegisterKey(prefix, r, scope, entity) == RegisterKey(prefix, r', scope', entity')
    ensures r == r' && scope == scope' && entity == entity'
  {
    var key, n := RegisterKey(prefix, r, scope, entity), |prefix|;
    assert key[n..] == Mark(r) + Slash(scope, entity) && key[n..] == Mark(r') + Slash(scope', entity');
    assert key[n..][3] == Mark(r)[3] && key[n..][3] == Mark(r')[3];
    assert key[n..][|Mark(r)|..] == Slash(scope, entity) && key[n..][|Mark(r)|..] == Slash(scope', entity');
    SlashInjective(scope, entity, scope', entity');
  }

  lemma SlashInjective(a: string, x: string, b: string, y: string)
    requires '/' !in a && '/' !in b && Slash(a, x) == Slash(b, y)
    ensures a == b && x == y
  {
    SplitSlash(a, x);
    SplitSlash(b, y);
    assert a == Split(Slash(a, x), '/')[0] && b == Split(Slash(b, y), '/')[0];
    assert Slash(a, x)[|a| + 1..] == x && Slash(b, y)[|b| + 1..] == y;
  }

  /** The keys, spelled out. */
  lemma RegisterKeys(prefix: CacheKey, scope: string, entity: string)
    ensures RegisterKey(prefix, TokenRegister, scope, entity) == prefix + "v1:token:" + scope + "/" + entity
    ensures RegisterKey(prefix, ListingRegister, scope, entity) == prefix + "v1:listing:" + scope + "/" + entity
  {
    assert prefix + ("v1:token:" + (scope + "/" + entity)) == prefix + "v1:token:" + scope + "/" + entity;
    assert prefix + ("v1:listing:" + (scope + "/" + entity)) == prefix + "v1:listing:" + scope + "/" + entity;
  }

  /** A register of an entity under one key prefix is a register of an entity under the other. */
  ghost predicate SameRegister(prefix: CacheKey, r: Register, scope: string, entity: string,
                               prefix': CacheKey, r': Register, scope': string, entity': string)
  {
    && ValidSegment(scope) && ValidSegment(entity) && ValidSegment(scope') && ValidSegment(entity')
    && RegisterKey(prefix, r, scope, entity) == RegisterKey(prefix', r', scope', entity')
  }

  ghost predicate ShareRegister(prefix: CacheKey, prefix': CacheKey) {
    exists r, scope, entity, r', scope', entity' ::
      SameRegister(prefix, r, scope, entity, prefix', r', scope', entity')
  }

  /** Characters that a segment may contain. */
  predicate PlainTail(tail: string) {
    forall c :: c in tail ==> c != '/' && c != '\\' && !IsControl(c)
  }

  /** The longer prefix goes on from the shorter one like a register of some scope. */
  ghost predicate Continues(prefix: CacheKey, longer: CacheKey) {
    exists r, tail :: PlainTail(tail) && longer == prefix + (Mark(r) + tail)
  }

  /** Two stores share a register exactly when one key prefix goes on from the other with a register's
      mark and no slash, backslash or control character after it. */
  lemma StoresShareIff(prefix: CacheKey, prefix': CacheKey)
    requires prefix != prefix'
    ensures ShareRegister(prefix, prefix') <==> Continues(prefix, prefix') || Continues(prefix', prefix)
  {
    if Continues(prefix, prefix') {
      ContinuedShares(prefix, prefix');
    }
    if Continues(prefix', prefix) {
      ContinuedShares(prefix', prefix);
      ShareSymmetric(prefix', prefix);
    }
    if ShareRegister(prefix, prefix') {
      var r, scope, entity, r', scope', entity' :| SameRegister(prefix, r, scope, entity, prefix', r', scope', entity');
      OneStartsOther(prefix, Mark(r) + Slash(scope, entity), prefix', Mark(r') + Slash(scope', entity'));
      if prefix <= prefix' {
        SharedContinues(prefix, r, scope, entity, prefix', r', scope', entity');
      } else {
        SharedContinues(prefix', r', scope', entity', prefix, r, scope, entity);
      }
    }
  }

  lemma ShareSymmetric(prefix: CacheKey, prefix': CacheKey)
    requires ShareRegister(prefix, prefix')
    ensures ShareRegister(prefix', prefix)
  {
    var r, scope, entity, r', scope', entity' :| SameRegister(prefix, r, scope, entity, prefix', r', scope', entity');
    assert SameRegister(prefix', r', scope', entity', prefix, r, scope, entity);
  }

  lemma OneStartsOther(a: string, x: string, b: string, y: string)
    requires a + x == b + y
    ensures a <= b || b <= a
  {
    assert (a + x)[..|a|] == a && (b + y)[..|b|] == b;
    if |a| <= |b| {
      assert b[..|a|] == a;
    } else {
      assert a[..|b|] == b;
    }
  }

  lemma Regroup(a: string, b: string, c: string)
    ensures a + (b + c) == a + b + c
  {
  }

  lemma Cancel(a: string, x: string, y: string)
    requires a + x == a + y
    ensures x == y
  {
    assert (a + x)[|a|..] == x && (a + y)[|a|..] == y;
  }

  lemma SlashPrepend(x: string, scope: string, entity: string)
    ensures Slash(x + scope, entity) == x + Slash(scope, entity)
  {
  }

  /** A register under the longer prefix, read under the shorter one. */
  lemma KeyThrough(prefix: CacheKey, r: Register, tail: string, r': Register, scope: string, entity: string)
    ensures RegisterKey(prefix + (Mark(r) + tail), r', scope, entity)
            == RegisterKey(prefix, r, tail + (Mark(r') + scope), entity)
  {
    hide Slash, Mark;
    var name := Slash(scope, entity);
    SlashPrepend(Mark(r'), scope, entity);
    SlashPrepend(tail, Mark(r') + scope, entity);
    var inner := Mark(r') + name;
    Regroup(prefix, Mark(r) + tail, inner);
    Regroup(Mark(r), tail, inner);
  }

  lemma ContinuedShares(prefix: CacheKey, longer: CacheKey)
    requires Continues(prefix, longer)
    ensures ShareRegister(prefix, longer)
  {
    hide ValidSegment, PlainTail, RegisterKey, Mark;
    var r, tail :| PlainTail(tail) && longer == prefix + (Mark(r) + tail);
    KeyThrough(prefix, r, tail, TokenRegister, "s", "e");
    TailIsScope(tail);
    SmallSegments();
    assert SameRegister(prefix, r, tail + (Mark(TokenRegister) + "s"), "e", longer, TokenRegister, "s", "e");
  }

  lemma SmallSegments()
    ensures ValidSegment("s") && ValidSegment("e")
  {
  }

  lemma TailIsScope(tail: string)
    requires PlainTail(tail)
    ensures ValidSegment(tail + (Mark(TokenRegister) + "s"))
  {
    var mark := Mark(TokenRegister) + "s";
    assert mark == "v1:token:s";
    assert forall i :: 0 <= i < |mark| ==> mark[i] != '/' && mark[i] != '\\' && !IsControl(mark[i]);
    assert |tail + mark| > 2;
  }

  lemma SharedContinues(prefix: CacheKey, r: Register, scope: string, entity: string,
                        longer: CacheKey, r': Register, scope': string, entity': string)
    requires SameRegister(prefix, r, scope, entity, longer, r', scope', entity') && prefix <= longer && prefix != longer
    ensures Continues(prefix, longer)
  {
    hide ValidSegment, Slash, Mark, PlainTail;
    var rest := longer[|prefix|..];
    var whole := Mark(r) + Slash(scope, entity);
    var inner := Mark(r') + Slash(scope', entity');
    assert longer == prefix + rest;
    Regroup(prefix, rest, inner);
    Cancel(prefix, whole, rest + inner);
    MarkComesWhole(r, Slash(scope, entity), rest, r', Slash(scope', entity'));
    var tail := rest[|Mark(r)|..];
    assert rest == Mark(r) + tail;
    Regroup(Mark(r), tail, inner);
    Cancel(Mark(r), Slash(scope, entity), tail + inner);
    TailInScope(scope, entity, tail, r', scope', entity');
  }

  /** A mark cannot begin inside another: its first letter occurs only there. */
  lemma MarkComesWhole(r: Register, name: string, rest: string, r': Register, name': string)
    requires rest != "" && Mark(r) + name == rest + (Mark(r') + name')
    ensures Mark(r) <= rest
  {
    var whole := Mark(r) + name;
    if |rest| < |Mark(r)| {
      assert whole[|rest|] == Mark(r)[|rest|] && whole[|rest|] == Mark(r')[0];
      FirstLetterOnce(r, |rest|);
    }
    assert rest == whole[..|rest|];
  }

  lemma FirstLetterOnce(r: Register, i: nat)
    requires 0 < i < |Mark(r)|
    ensures Mark(r)[i] != 'v'
  {
    var token, listing := "v1:token:", "v1:listing:";
    assert forall j :: 0 < j < |token| ==> token[j] != 'v';
    assert forall j :: 0 < j < |listing| ==> listing[j] != 'v';
  }

  lemma SlashChars(scope: string, entity: string)
    ensures forall i :: 0 <= i < |Slash(scope, entity)| ==>
              Slash(scope, entity)[i] == if i < |scope| then scope[i] else if i == |scope| then '/' else entity[i - |scope| - 1]
  {
  }

  /** There is one slash, so what precedes the inner register lies within the scope. */
  lemma TailInScope(scope: string, entity: string, tail: string, r: Register, scope': string, entity': string)
    requires ValidSegment(scope) && ValidSegment(entity)
    requires Slash(scope, entity) == tail + (Mark(r) + Slash(scope', entity'))
    ensures PlainTail(tail)
  {
    var whole := Slash(scope, entity);
    var at := |tail| + |Mark(r)| + |scope'|;
    assert whole[at] == '/';
    SlashChars(scope, entity);
    assert at <= |scope|;
    forall c | c in tail
      ensures c in scope
    {
      var i :| 0 <= i < |tail| && tail[i] == c;
      assert whole[i] == c && whole[i] == scope[i];
    }
  }

  /** One such pair, with the entities that collide. */
  lemma PrefixesMustBeFree()
    ensures SameRegister("", TokenRegister, "v1:token:s", "e", "v1:token:", TokenRegister, "s", "e")
    ensures ShareRegister("", "v1:token:")
  {
    assert "v1:token:" + Slash("v1:token:s", "e") == "v1:token:v1:token:s/e";
    assert "v1:token:" + ("v1:token:" + Slash("s", "e")) == "v1:token:v1:token:s/e";
    assert RegisterKey("", TokenRegister, "v1:token:s", "e") == "v1:token:v1:token:s/e";
    assert SameRegister("", TokenRegister, "v1:token:s", "e", "v1:token:", TokenRegister, "s", "e");
  }
}
