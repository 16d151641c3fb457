/** The generation-token index cache as a step protocol: any number of readers, writers and
    invalidators, of any number of stores sharing one cache, interleaved one cache or storage
    call at a time. Keys may expire or be lost, cache calls may fail, processes may stop, and
    writers that bypass the cache may change storage at will. */
module CacheProtocol {
  import opened Wrappers
  import opened KeyOrder
  import opened Listing
  import opened PagedScan
  import S = Storage

  type Token = nat
  type Entity = Key    // an entity, named by its listing prefix
  type Pid = nat

  /** A cache register's content, gone once the clock reaches `expires`. */
  datatype Cell<V> = Cell(value: V, expires: Option<nat>)

  datatype Cached = Tombstone | Tagged(tag: Token, scan: Scan)

  /** History: the one time a token entered its entity's register. */
  datatype TokenPut = TokenPut(entity: Entity, time: nat, clock: nat)

  datatype Process =
    | Reading(entity: Entity)
    | Looking(entity: Entity, token: Token, readAt: nat, readClock: nat)
    | Minting(entity: Entity, readAt: nat, readClock: nat)
    | Scanning(entity: Entity, token: Token, readAt: nat, readClock: nat, scan: Scan)
    | Served(entity: Entity, token: Token, readAt: nat, readClock: nat, scan: Scan, hit: bool)
    | Mutating(entity: Entity, key: Key, delete: bool)
    | Invalidating(entity: Entity, tombstone: bool, committed: Option<nat>)
    | Tombstoning(entity: Entity, committed: Option<nat>, replaced: Option<nat>)
    | Finished(entity: Entity, committed: Option<nat>, replaced: Option<nat>)
    | Stopped

  /** `hist[t]` is the storage after step `t`; the last one is the current storage. */
  datatype State = State(
    hist: seq<S.Flat>, clock: nat,
    tokens: map<Entity, Cell<Token>>, listings: map<Entity, Cell<Cached>>,
    procs: map<Pid, Process>, puts: map<Token, TokenPut>, supply: Token)

  /** `maxClock` is the last time a clock can show; `ttlBound`, if any, bounds every store's ttl. */
  datatype Config = Config(maxClock: nat, ttlBound: Option<nat>)

  datatype Step =
    | Tick(to: nat)
    | LoseToken(entity: Entity)
    | LoseListing(entity: Entity)
    | Bypass(after: S.Flat)
    | StartRead(p: Pid, entity: Entity)
    | StartMutation(p: Pid, entity: Entity, key: Key, delete: bool)
    | StartInvalidation(p: Pid, entity: Entity)
    | SeeToken(p: Pid)
    | MissToken(p: Pid)
    | MintToken(p: Pid, ttl: Option<nat>, stored: bool)
    | Hit(p: Pid)
    | MissListing(p: Pid)
    | ReadPage(p: Pid, size: nat)
    | StoreListing(p: Pid, ttl: Option<nat>, stored: bool)
    | Commit(p: Pid, written: Option<S.Object>)
    | NoCommit(p: Pid)
    | ReplaceToken(p: Pid, ttl: Option<nat>, stored: bool)
    | WriteTombstone(p: Pid, ttl: Option<nat>, stored: bool)
    | Stop(p: Pid)

  predicate TtlAllowed(c: Config, ttl: Option<nat>) {
    && (ttl.Some? ==> ttl.value > 0)
    && (c.ttlBound.Some? ==> ttl.Some? && ttl.value <= c.ttlBound.value)
  }

  /** When a value set now expires; never, if the expiry is past the last representable time. */
  function Expiry(c: Config, clock: nat, ttl: Option<nat>): Option<nat> {
    if ttl.None? || clock + ttl.value > c.maxClock then None else Some(clock + ttl.value)
  }

  predicate Live<V>(cell: Cell<V>, clock: nat) {
    cell.expires.None? || clock < cell.expires.value
  }

  function Now(s: State): S.Flat
    requires s.hist != []
  {
    s.hist[|s.hist| - 1]
  }

  /** The step takes effect at time `|s.hist|`, leaving storage at `f`. */
  function Advance(s: State, f: S.Flat): State {
    s.(hist := s.hist + [f])
  }

  function Move(s: State, p: Pid, q: Process): State {
    s.(procs := s.procs[p := q])
  }

  /** A fresh token is drawn; if the cache takes it, it is its entity's register from now on. */
  function PutToken(c: Config, s: State, e: Entity, ttl: Option<nat>, stored: bool): State {
    var minted := s.supply;
    if stored then
      s.(tokens := s.tokens[e := Cell(minted, Expiry(c, s.clock, ttl))],
         puts := s.puts[minted := TokenPut(e, |s.hist|, s.clock)],
         supply := minted + 1)
    else s.(supply := minted + 1)
  }

  function PutListing(c: Config, s: State, e: Entity, v: Cached, ttl: Option<nat>, stored: bool): State {
    if stored then s.(listings := s.listings[e := Cell(v, Expiry(c, s.clock, ttl))]) else s
  }

  /** A listing about to start: its first page is read at the next step or later. */
  function NewScan(s: State): Scan {
    Scan(|s.hist|, s.clock, [], None, false)
  }

  /** The state after a step, or None where the step is not possible. */
  function Apply(c: Config, s: State, step: Step): Option<State>
    requires s.hist != []
  {
    match step
    case Tick(to) => TickStep(c, s, to)
    case LoseToken(e) => Some(Advance(s.(tokens := s.tokens - {e}), Now(s)))
    case LoseListing(e) => Some(Advance(s.(listings := s.listings - {e}), Now(s)))
    case Bypass(after) => Some(Advance(s, after))
    case StartRead(p, e) => StartStep(s, p, Reading(e))
    case StartMutation(p, e, key, delete) => if e <= key then StartStep(s, p, Mutating(e, key, delete)) else None
    case StartInvalidation(p, e) => StartStep(s, p, Invalidating(e, true, None))
    case SeeToken(p) => if p in s.procs then SeeTokenStep(s, p, s.procs[p]) else None
    case MissToken(p) => if p in s.procs then MissTokenStep(s, p, s.procs[p]) else None
    case MintToken(p, ttl, stored) => if p in s.procs then MintTokenStep(c, s, p, s.procs[p], ttl, stored) else None
    case Hit(p) => if p in s.procs then HitStep(s, p, s.procs[p]) else None
    case MissListing(p) => if p in s.procs then MissListingStep(s, p, s.procs[p]) else None
    case ReadPage(p, size) => if p in s.procs then ReadPageStep(s, p, s.procs[p], size) else None
    case StoreListing(p, ttl, stored) =>
      if p in s.procs then StoreListingStep(c, s, p, s.procs[p], ttl, stored) else None
    case Commit(p, written) => if p in s.procs then CommitStep(s, p, s.procs[p], written) else None
    case NoCommit(p) => if p in s.procs then NoCommitStep(s, p, s.procs[p]) else None
    case ReplaceToken(p, ttl, stored) =>
      if p in s.procs then ReplaceTokenStep(c, s, p, s.procs[p], ttl, stored) else None
    case WriteTombstone(p, ttl, stored) =>
      if p in s.procs then WriteTombstoneStep(c, s, p, s.procs[p], ttl, stored) else None
    case Stop(p) => if p in s.procs then Some(Move(Advance(s, Now(s)), p, Stopped)) else None
  }

  function TickStep(c: Config, s: State, to: nat): Option<State>
    requires s.hist != []
  {
    if s.clock <= to <= c.maxClock then Some(Advance(s.(clock := to), Now(s))) else None
  }

  function StartStep(s: State, p: Pid, q: Process): Option<State>
    requires s.hist != []
  {
    if p !in s.procs then Some(Move(Advance(s, Now(s)), p, q)) else None
  }

  function SeeTokenStep(s: State, p: Pid, r: Process): Option<State>
    requires s.hist != []
  {
    if r.Reading? && r.entity in s.tokens && Live(s.tokens[r.entity], s.clock) then
      Some(Move(Advance(s, Now(s)), p, Looking(r.entity, s.tokens[r.entity].value, |s.hist|, s.clock)))
    else None
  }

  function MissTokenStep(s: State, p: Pid, r: Process): Option<State>
    requires s.hist != []
  {
    if r.Reading? then Some(Move(Advance(s, Now(s)), p, Minting(r.entity, |s.hist|, s.clock))) else None
  }

  function MintTokenStep(c: Config, s: State, p: Pid, r: Process, ttl: Option<nat>, stored: bool): Option<State>
    requires s.hist != []
  {
    if r.Minting? && TtlAllowed(c, ttl) then
      Some(Move(Advance(PutToken(c, s, r.entity, ttl, stored), Now(s)), p,
                Scanning(r.entity, s.supply, r.readAt, r.readClock, NewScan(s))))
    else None
  }

  function HitStep(s: State, p: Pid, r: Process): Option<State>
    requires s.hist != []
  {
    if r.Looking? && r.entity in s.listings && Live(s.listings[r.entity], s.clock)
       && s.listings[r.entity].value.Tagged? && s.listings[r.entity].value.tag == r.token then
      Some(Move(Advance(s, Now(s)), p,
                Served(r.entity, r.token, r.readAt, r.readClock, s.listings[r.entity].value.scan, true)))
    else None
  }

  function MissListingStep(s: State, p: Pid, r: Process): Option<State>
    requires s.hist != []
  {
    if r.Looking? then
      Some(Move(Advance(s, Now(s)), p, Scanning(r.entity, r.token, r.readAt, r.readClock, NewScan(s))))
    else None
  }

  function ReadPageStep(s: State, p: Pid, r: Process, size: nat): Option<State>
    requires s.hist != []
  {
    if r.Scanning? && !r.scan.complete && size >= 1 then
      var page := ListPrefix(Now(s), r.entity, r.scan.cursor, size);
      if page.Failure? then None
      else Some(Move(Advance(s, Now(s)), p,
                     Scanning(r.entity, r.token, r.readAt, r.readClock, AddPage(r.scan, page.value))))
    else None
  }

  function StoreListingStep(c: Config, s: State, p: Pid, r: Process, ttl: Option<nat>, stored: bool): Option<State>
    requires s.hist != []
  {
    if r.Scanning? && r.scan.complete && TtlAllowed(c, ttl) then
      Some(Move(Advance(PutListing(c, s, r.entity, Tagged(r.token, r.scan), ttl, stored), Now(s)), p,
                Served(r.entity, r.token, r.readAt, r.readClock, r.scan, false)))
    else None
  }

  /** The mutation lands: a put of `written`, or a removal. */
  function CommitStep(s: State, p: Pid, w: Process, written: Option<S.Object>): Option<State>
    requires s.hist != []
  {
    if w.Mutating? && w.delete == written.None? then
      var after := match written
        case Some(o) => S.Put(Now(s), w.key, o.data, o.metadata)
        case None => S.Remove(Now(s), w.key);
      Some(Move(Advance(s, after), p, Invalidating(w.entity, w.delete, Some(|s.hist|))))
    else None
  }

  function NoCommitStep(s: State, p: Pid, w: Process): Option<State>
    requires s.hist != []
  {
    if w.Mutating? then Some(Move(Advance(s, Now(s)), p, Invalidating(w.entity, w.delete, None))) else None
  }

  function ReplaceTokenStep(c: Config, s: State, p: Pid, w: Process, ttl: Option<nat>, stored: bool): Option<State>
    requires s.hist != []
  {
    if w.Invalidating? && TtlAllowed(c, ttl) then
      var replaced := if stored then Some(|s.hist|) else None;
      Some(Move(Advance(PutToken(c, s, w.entity, ttl, stored), Now(s)), p,
                if w.tombstone then Tombstoning(w.entity, w.committed, replaced)
                else Finished(w.entity, w.committed, replaced)))
    else None
  }

  function WriteTombstoneStep(c: Config, s: State, p: Pid, w: Process, ttl: Option<nat>, stored: bool): Option<State>
    requires s.hist != []
  {
    if w.Tombstoning? && TtlAllowed(c, ttl) then
      Some(Move(Advance(PutListing(c, s, w.entity, Tombstone, ttl, stored), Now(s)), p,
                Finished(w.entity, w.committed, w.replaced)))
    else None
  }

  predicate Initial(c: Config, s: State) {
    && |s.hist| == 1 && s.clock <= c.maxClock
    && s.tokens == map[] && s.listings == map[] && s.procs == map[] && s.puts == map[] && s.supply == 0
  }

  ghost predicate Next(c: Config, s: State, s': State) {
    s.hist != [] && exists step :: Apply(c, s, step) == Some(s')
  }

  /** A run: any initial state, then any number of possible steps. */
  ghost predicate IsRun(c: Config, run: seq<State>) {
    && run != [] && Initial(c, run[0])
    && forall i :: 0 < i < |run| ==> Next(c, run[i - 1], run[i])
  }

  ghost predicate Reachable(c: Config, s: State) {
    exists run :: IsRun(c, run) && run[|run| - 1] == s
  }
}
