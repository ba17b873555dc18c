/** The gateway as a step machine.  Calls run concurrently: between any two of
    their accesses to the clock, the operation store and the snapshot cache,
    other calls may take steps. */
module Gateway {
  import opened Outcomes
  import opened Domain
  import opened Flows
  import OperationStore
  import SnapshotCache
  import opened SnapshotFetch

  datatype Config = Config(chain: ChainId, ttlMs: nat, maxOperations: nat, maxSnapshots: nat)

  /** What calls share.  `clock` is the last reading given out. */
  datatype Shared = Shared(clock: nat, store: OperationStore.StoreState, cache: SnapshotCache.Cache)

  // ----- calls

  datatype Response = Response(operation: OperationStatus, value: Value)

  /** The three status writes of a call. */
  datatype Mark = AsQueued | AsRunning | AsFinal(outcome: Outcome)

  datatype Phase =
    | Called
    | Marking(id: OperationId, mark: Mark)             // about to read the clock for a write
    | Stamped(id: OperationId, mark: Mark, atMs: nat)  // clock read, waiting for the store
    | Working(id: OperationId)
    | Looking(id: OperationId, nowMs: nat)             // snapshot query, waiting for the cache
    | Fetching(id: OperationId, nowMs: nat, cached: Option<SnapshotCache.Entry>)
    | Storing(id: OperationId, nowMs: nat, snapshot: Snapshot)
    | Returned(id: OperationId, answer: GatewayResult<Response>)
    | Refused(error: GatewayError)                     // no id could be drawn

  datatype Poll = Asked | Polling(atMs: nat) | Answered(found: Option<OperationStatus>)

  datatype Call = Operation(request: Request, phase: Phase) | Lookup(id: OperationId, poll: Poll)

  /** What a step does to the shared state, with what it saw there. */
  datatype Action =
    | Refuse                                // a check failed
    | Ask(answers: Answers)                 // what resolver, signer and backend answered
    | Fetch(backend: Backend)               // what the backend answered a snapshot fetch
    | Draw(drawn: GatewayResult<OperationId>)
    | Read(reading: nat)
    | Write(status: OperationStatus, atMs: nat)
    | Look(id: OperationId, atMs: nat, found: Option<OperationStatus>)
    | Peek(key: SnapshotCache.Key, cached: Option<SnapshotCache.Entry>)
    | Save(key: SnapshotCache.Key, entry: SnapshotCache.Entry)

  function StatusOf(r: Request, id: OperationId, mark: Mark): OperationStatus {
    match mark
    case AsQueued => OperationStatus(id, KindOf(r), Queued, None)
    case AsRunning => OperationStatus(id, KindOf(r), Running, None)
    case AsFinal(o) => OperationStatus(id, KindOf(r), o.state, o.provenance)
  }

  /** Where a call stands once `status` is written. */
  function AfterWrite(id: OperationId, mark: Mark, status: OperationStatus): Phase {
    match mark
    case AsQueued => Marking(id, AsRunning)
    case AsRunning => Working(id)
    case AsFinal(o) => (
      match o.answer
      case Success(value) => Returned(id, Success(Response(status, value)))
      case Failure(error) => Returned(id, Failure(error)))
  }

  function Complete(id: OperationId, snapshot: Snapshot): Phase {
    Marking(id, AsFinal(Outcome(Completed, None, Success(SnapshotValue(snapshot)))))
  }

  /** `query_account_snapshot` after its cache lookup. */
  function AfterPeek(q: SnapshotRequest, id: OperationId, now: nat, cached: Option<SnapshotCache.Entry>): Phase {
    match SnapshotCache.CachedResponse(q, cached, now)
    case Some(snapshot) => Complete(id, snapshot)
    case None => Fetching(id, now, cached)
  }

  /** `refresh_snapshot` after its fetch. */
  function AfterFetch(q: SnapshotRequest, id: OperationId, now: nat, cached: Option<SnapshotCache.Entry>,
                      fetched: GatewayResult<Snapshot>): Phase {
    match fetched
    case Success(snapshot) => Storing(id, now, snapshot)
    case Failure(error) => (
      match SnapshotCache.StaleFallback(q, cached, now)
      case Some(snapshot) => Complete(id, snapshot)
      case None => Marking(id, AsFinal(Reject(error, None))))
  }

  ghost predicate PhaseStep(chain: ChainId, r: Request, p: Phase, a: Action, p': Phase) {
    match p
    case Called =>
      a.Draw? && p' == (if a.drawn.Success? then Marking(a.drawn.value, AsQueued) else Refused(a.drawn.error))
    case Marking(id, mark) => a.Read? && p' == Stamped(id, mark, a.reading)
    case Stamped(id, mark, at) => a == Write(StatusOf(r, id, mark), at) && p' == AfterWrite(id, mark, a.status)
    case Working(id) =>
      if r.QueryRequest? then
        var checked := CheckSnapshot(chain, r.query);
        if checked.Failure? then a.Refuse? && p' == Marking(id, AsFinal(Reject(checked.error, None)))
        else a.Read? && p' == Looking(id, a.reading)
      else
        a.Ask? && p' == Marking(id, AsFinal(Decide(chain, r, a.answers)))
    case Looking(id, now) =>
      && r.QueryRequest? && a.Peek? && a.key == SnapshotCache.KeyOf(r.query)
      && p' == AfterPeek(r.query, id, now, a.cached)
    case Fetching(id, now, cached) =>
      && r.QueryRequest? && a.Fetch?
      && p' == AfterFetch(r.query, id, now, cached, Fetched(a.backend, SnapshotCache.KeyOf(r.query), now))
    case Storing(id, now, snapshot) =>
      && r.QueryRequest? && a == Save(SnapshotCache.KeyOf(r.query), SnapshotCache.Entry(now, snapshot))
      && p' == Complete(id, snapshot)
    case Returned(_, _) => false
    case Refused(_) => false
  }

  ghost predicate PollStep(id: OperationId, p: Poll, a: Action, p': Poll) {
    match p
    case Asked => a.Read? && p' == Polling(a.reading)
    case Polling(at) => a.Look? && a.id == id && a.atMs == at && p' == Answered(a.found)
    case Answered(_) => false
  }

  ghost predicate CallStep(chain: ChainId, c: Call, a: Action, c': Call) {
    match c
    case Operation(r, p) => c'.Operation? && c'.request == r && PhaseStep(chain, r, p, a, c'.phase)
    case Lookup(id, p) => c'.Lookup? && c'.id == id && PollStep(id, p, a, c'.poll)
  }

  // ----- the shared state

  function Lookups(m: OperationStore.Entries, id: OperationId): Option<OperationStatus> {
    if id in m then Some(m[id].status) else None
  }

  function CacheLookup(c: SnapshotCache.Cache, key: SnapshotCache.Key): Option<SnapshotCache.Entry> {
    if key in c.entries then Some(c.entries[key]) else None
  }

  /** The clock never reads less than before; each lock is held for one step. */
  ghost predicate SharedStep(cfg: Config, s: Shared, a: Action, s': Shared) {
    match a
    case Refuse => s' == s
    case Ask(_) => s' == s
    case Fetch(_) => s' == s
    case Draw(_) => s' == s
    case Read(reading) => s.clock <= reading && s' == s.(clock := reading)
    case Write(status, at) =>
      && s' == s.(store := s'.store)
      && OperationStore.StoreStep(s.store, OperationStore.Put(status, at), s'.store, cfg.ttlMs, cfg.maxOperations)
    case Look(id, at, found) =>
      && s' == s.(store := s'.store)
      && OperationStore.StoreStep(s.store, OperationStore.Look(id, at), s'.store, cfg.ttlMs, cfg.maxOperations)
      && found == Lookups(s'.store.entries, id)
    case Peek(key, cached) => s' == s && cached == CacheLookup(s.cache, key)
    case Save(key, entry) => s' == s.(cache := SnapshotCache.Stored(s.cache, key, entry, cfg.maxSnapshots))
  }

  // ----- runs

  datatype State = State(shared: Shared, calls: seq<Call>)

  /** A new call arrives, or a call takes a step. */
  datatype Item = Arrive(call: Call) | Did(caller: nat, action: Action)

  predicate Arriving(c: Call) {
    match c
    case Operation(_, p) => p.Called?
    case Lookup(_, p) => p.Asked?
  }

  ghost predicate Next(cfg: Config, g: State, item: Item, g': State) {
    match item
    case Arrive(call) => Arriving(call) && g' == g.(calls := g.calls + [call])
    case Did(c, a) =>
      && c < |g.calls| == |g'.calls|
      && CallStep(cfg.chain, g.calls[c], a, g'.calls[c])
      && g'.calls == g.calls[c := g'.calls[c]]
      && SharedStep(cfg, g.shared, a, g'.shared)
  }

  const START := State(Shared(0, OperationStore.EMPTY_STORE, SnapshotCache.EMPTY), [])

  /** Some run with this trace, however its calls interleave, ends in `g`. */
  ghost predicate Reached(cfg: Config, trace: seq<Item>, g: State) {
    if trace == [] then g == START
    else
      var init, last := trace[..|trace| - 1], trace[|trace| - 1];
      exists p :: Reached(cfg, init, p) && Next(cfg, p, last, g)
  }
}
