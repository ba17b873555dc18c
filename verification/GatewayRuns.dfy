/** What holds of every run of the gateway, however its calls interleave. */
module GatewayRuns {
  import opened Outcomes
  import opened Domain
  import opened Flows
  import opened Gateway
  import opened SnapshotFetch
  import OperationStore
  import StoreHistory
  import SnapshotCache
  import Clock

  // ----- what a trace did

  function EventOf(item: Item): Option<OperationStore.StoreEvent> {
    match item
    case Arrive(_) => None
    case Did(_, a) =>
      if a.Write? then Some(OperationStore.Put(a.status, a.atMs))
      else if a.Look? then Some(OperationStore.Look(a.id, a.atMs))
      else None
  }

  /** The store's events, in order. */
  function Events(trace: seq<Item>): seq<OperationStore.StoreEvent> {
    if trace == [] then []
    else
      var init := Events(trace[..|trace| - 1]);
      match EventOf(trace[|trace| - 1])
      case Some(e) => init + [e]
      case None => init
  }

  lemma EventsSnoc(trace: seq<Item>)
    requires trace != []
    ensures Events(trace) == match EventOf(trace[|trace| - 1])
                             case Some(e) => Events(trace[..|trace| - 1]) + [e]
                             case None => Events(trace[..|trace| - 1])
  {
    hide EventOf;
  }

  /** The cache's stores, in order. */
  function Saves(trace: seq<Item>): seq<(SnapshotCache.Key, SnapshotCache.Entry)> {
    if trace == [] then []
    else
      var init, last := Saves(trace[..|trace| - 1]), trace[|trace| - 1];
      if last.Did? && last.action.Save? then init + [(last.action.key, last.action.entry)] else init
  }

  /** The statuses call `c` wrote, in order. */
  function Writes(trace: seq<Item>, c: nat): seq<OperationStatus> {
    if trace == [] then []
    else
      var init, last := Writes(trace[..|trace| - 1], c), trace[|trace| - 1];
      if last.Did? && last.caller == c && last.action.Write? then init + [last.action.status] else init
  }

  /** The clock readings call `c` took, in order. */
  function Reads(trace: seq<Item>, c: nat): seq<nat> {
    if trace == [] then []
    else
      var init, last := Reads(trace[..|trace| - 1], c), trace[|trace| - 1];
      if last.Did? && last.caller == c && last.action.Read? then init + [last.action.reading] else init
  }

  /** A query works as of its third reading; the first two stamp its Queued and
      Running writes. */
  predicate AsOf(trace: seq<Item>, c: nat, now: nat) {
    |Reads(trace, c)| >= 3 && Reads(trace, c)[2] == now
  }

  // ----- the shared objects follow their own specifications

  lemma StoreNext(cfg: Config, g: State, item: Item, g': State)
    requires Next(cfg, g, item, g')
    ensures match EventOf(item)
            case Some(e) => OperationStore.StoreStep(g.shared.store, e, g'.shared.store, cfg.ttlMs, cfg.maxOperations)
            case None => g'.shared.store == g.shared.store
  {
    hide CallStep, OperationStore.StoreStep, SnapshotCache.Stored;
  }

  /** The operation store is in a state its own history explains, so
      everything proved of its runs holds of it here. */
  lemma {:induction false} StoreFollows(cfg: Config, trace: seq<Item>, g: State)
    requires Reached(cfg, trace, g)
    ensures StoreHistory.Reaches(Events(trace), g.shared.store, cfg.ttlMs, cfg.maxOperations)
  {
    if trace == [] {
      StoreHistory.Start(cfg.ttlMs, cfg.maxOperations);
    } else {
      var init, last := trace[..|trace| - 1], trace[|trace| - 1];
      var p :| Reached(cfg, init, p) && Next(cfg, p, last, g);
      hide Reached, Next, OperationStore.StoreStep, StoreHistory.Reaches;
      StoreFollows(cfg, init, p);
      StoreNext(cfg, p, last, g);
      if EventOf(last).Some? {
        StoreHistory.Extend(Events(init), p.shared.store, EventOf(last).value, g.shared.store, cfg.ttlMs, cfg.maxOperations);
      }
    }
  }

  lemma CacheNext(cfg: Config, g: State, item: Item, g': State)
    requires Next(cfg, g, item, g')
    ensures g'.shared.cache ==
            if item.Did? && item.action.Save?
            then SnapshotCache.Stored(g.shared.cache, item.action.key, item.action.entry, cfg.maxSnapshots)
            else g.shared.cache
  {
    hide CallStep, OperationStore.StoreStep, SnapshotCache.Stored;
  }

  /** The cache is what its own stores made of it. */
  lemma {:induction false} CacheFollows(cfg: Config, trace: seq<Item>, g: State)
    requires Reached(cfg, trace, g)
    ensures g.shared.cache == SnapshotCache.Run(SnapshotCache.EMPTY, Saves(trace), cfg.maxSnapshots)
  {
    if trace != [] {
      var init, last := trace[..|trace| - 1], trace[|trace| - 1];
      var p :| Reached(cfg, init, p) && Next(cfg, p, last, g);
      hide Reached, Next, SnapshotCache.Stored;
      CacheFollows(cfg, init, p);
      CacheNext(cfg, p, last, g);
      assert Saves(trace)[..|Saves(init)|] == Saves(init);
    }
  }

  // ----- the lifecycle of a call

  /** How a terminal status and the returned answer belong together. */
  predicate Closes(status: OperationStatus, answer: GatewayResult<Response>) {
    match answer
    case Failure(error) => status.state == Rejected(error)
    case Success(response) =>
      response.operation == status && (status.state.Completed? || status.state.Submitted? || status.state.Accepted?)
  }

  /** What a call has written by the time it is in phase `p`. */
  ghost predicate HasWritten(r: Request, p: Phase, w: seq<OperationStatus>) {
    match p
    case Called => w == []
    case Refused(_) => w == []
    case Marking(id, mark) => Before(r, id, mark, w)
    case Stamped(id, mark, _) => Before(r, id, mark, w)
    case Working(id) => Begun(r, id, w)
    case Looking(id, _) => Begun(r, id, w)
    case Fetching(id, _, _) => Begun(r, id, w)
    case Storing(id, _, _) => Begun(r, id, w)
    case Returned(id, answer) => Ended(r, id, answer, w)
  }

  /** The status names the call's own id and kind of operation. */
  predicate Names(status: OperationStatus, r: Request, id: OperationId) {
    && status.id == id
    && (match r
        case DeriveRequest(_) => status.kind == OperationKind.DeriveAccount
        case CheckRequest(_) => status.kind == CheckDeployment
        case DeployRequest(_, _) => status.kind == DeployAccount
        case SignCall(_) => status.kind == Sign
        case QueryRequest(_) => status.kind == QueryAccountSnapshot)
  }

  /** First Queued, then Running, neither with provenance. */
  predicate Begun(r: Request, id: OperationId, w: seq<OperationStatus>) {
    && |w| == 2 && Names(w[0], r, id) && Names(w[1], r, id)
    && w[0].state == Queued && w[0].provenance == None
    && w[1].state == Running && w[1].provenance == None
  }

  predicate Before(r: Request, id: OperationId, mark: Mark, w: seq<OperationStatus>) {
    match mark
    case AsQueued => w == []
    case AsRunning => |w| == 1 && Names(w[0], r, id) && w[0].state == Queued && w[0].provenance == None
    case AsFinal(_) => Begun(r, id, w)
  }

  /** Queued, Running and exactly one terminal status, which closes the call. */
  ghost predicate Ended(r: Request, id: OperationId, answer: GatewayResult<Response>, w: seq<OperationStatus>) {
    |w| == 3 && Begun(r, id, w[..2]) && Names(w[2], r, id) && Closes(w[2], answer)
  }

  // ----- the readings of a call

  /** How many readings a call has taken up to its work. */
  ghost predicate Counted(p: Phase, taken: seq<nat>) {
    match p
    case Called => taken == []
    case Marking(_, mark) => if mark.AsQueued? then taken == [] else if mark.AsRunning? then |taken| == 1 else true
    case Stamped(_, mark, _) => if mark.AsQueued? then |taken| == 1 else if mark.AsRunning? then |taken| == 2 else true
    case Working(_) => |taken| == 2
    case _ => true
  }

  lemma PhaseCounted(chain: ChainId, r: Request, p: Phase, a: Action, p': Phase, taken: seq<nat>)
    requires PhaseStep(chain, r, p, a, p') && Counted(p, taken)
    ensures Counted(p', if a.Read? then taken + [a.reading] else taken)
  {
    hide CheckSnapshot, Decide, Fetched;
  }

  lemma {:induction false} ReadsCounted(cfg: Config, trace: seq<Item>, g: State, c: nat)
    requires Reached(cfg, trace, g)
    ensures if c >= |g.calls| then Reads(trace, c) == []
            else g.calls[c].Operation? ==> Counted(g.calls[c].phase, Reads(trace, c))
  {
    if trace != [] {
      var init, last := trace[..|trace| - 1], trace[|trace| - 1];
      var p :| Reached(cfg, init, p) && Next(cfg, p, last, g);
      ReadsCounted(cfg, init, p, c);
      hide Reached, SharedStep, PhaseStep, PollStep;
      if last.Did? && last.caller == c && p.calls[c].Operation? {
        PhaseCounted(cfg.chain, p.calls[c].request, p.calls[c].phase, last.action, g.calls[c].phase, Reads(init, c));
      }
    }
  }

  // ----- what the trace shows a call did

  /** Item j is call c looking the key up, and what it saw is what was stored
      last under that key until then. */
  ghost predicate PeekedAt(trace: seq<Item>, c: nat, j: nat, key: SnapshotCache.Key,
                           cached: Option<SnapshotCache.Entry>) {
    && j < |trace| && trace[j] == Did(c, Peek(key, cached))
    && (cached.Some? ==> SnapshotCache.LastStored(Saves(trace[..j]), key) == cached)
  }

  /** Item j is call c fetching the key, as of its query reading, with this
      result. */
  ghost predicate FetchedAt(trace: seq<Item>, c: nat, j: nat, key: SnapshotCache.Key, now: nat,
                            result: GatewayResult<Snapshot>) {
    && j < |trace| && trace[j].Did? && trace[j].caller == c && trace[j].action.Fetch?
    && AsOf(trace[..j], c, now) && result == Fetched(trace[j].action.backend, key, now)
  }

  ghost predicate HasPeeked(trace: seq<Item>, c: nat, key: SnapshotCache.Key, cached: Option<SnapshotCache.Entry>) {
    exists j: nat :: PeekedAt(trace, c, j, key, cached)
  }

  ghost predicate HasFetched(trace: seq<Item>, c: nat, key: SnapshotCache.Key, now: nat,
                             result: GatewayResult<Snapshot>) {
    exists j: nat :: FetchedAt(trace, c, j, key, now, result)
  }

  /** The call looked the key up and was not answered. */
  ghost predicate HasMissed(trace: seq<Item>, c: nat, q: SnapshotRequest, now: nat) {
    exists cached :: HasPeeked(trace, c, SnapshotCache.KeyOf(q), cached) && SnapshotCache.CachedResponse(q, cached, now) == None
  }

  ghost predicate HasSaved(trace: seq<Item>, c: nat, key: SnapshotCache.Key, e: SnapshotCache.Entry) {
    exists j: nat :: j < |trace| && trace[j] == Did(c, Save(key, e))
  }

  ghost predicate HasAsked(trace: seq<Item>, c: nat, a: Answers) {
    exists j: nat :: j < |trace| && trace[j] == Did(c, Ask(a))
  }

  /** The call's own fetch, as it came, after an unanswered lookup, and saved. */
  ghost predicate AsMiss(trace: seq<Item>, c: nat, q: SnapshotRequest, now: nat, s: Snapshot) {
    && HasMissed(trace, c, q, now) && HasFetched(trace, c, SnapshotCache.KeyOf(q), now, Success(s))
    && HasSaved(trace, c, SnapshotCache.KeyOf(q), SnapshotCache.Entry(now, s))
  }

  /** The entry it looked up, within the fresh window. */
  ghost predicate AsHit(trace: seq<Item>, c: nat, q: SnapshotRequest, now: nat, e: SnapshotCache.Entry, s: Snapshot) {
    && HasPeeked(trace, c, SnapshotCache.KeyOf(q), Some(e))
    && Clock.SaturatingSub(now, e.generatedAtMs) <= SnapshotCache.FreshWindow(q.policy)
    && s == SnapshotCache.ApplyMetadata(e.snapshot, Hit, e.generatedAtMs, now)
  }

  /** The entry it looked up, within the stale window: for a background view,
      or after its own fetch failed. */
  ghost predicate AsStale(trace: seq<Item>, c: nat, q: SnapshotRequest, now: nat, e: SnapshotCache.Entry, s: Snapshot) {
    && HasPeeked(trace, c, SnapshotCache.KeyOf(q), Some(e))
    && Clock.SaturatingSub(now, e.generatedAtMs) <= SnapshotCache.MaxCacheAge(q.policy)
    && s == SnapshotCache.ApplyMetadata(e.snapshot, Stale, e.generatedAtMs, now)
    && (q.mode.BackgroundView? || exists error :: HasFetched(trace, c, SnapshotCache.KeyOf(q), now, Failure(error)))
  }

  /** How the trace explains snapshot `s` as call c's answer to `q`. */
  ghost predicate Served(trace: seq<Item>, c: nat, q: SnapshotRequest, now: nat, s: Snapshot) {
    && AsOf(trace, c, now)
    && (|| AsMiss(trace, c, q, now, s)
        || (exists e :: AsHit(trace, c, q, now, e, s))
        || (exists e :: AsStale(trace, c, q, now, e, s)))
  }

  /** How the trace explains a success: a query by what it was served, another
      call by what it was told. */
  ghost predicate SuccessShown(trace: seq<Item>, c: nat, r: Request, state: OperationState, p: Option<Provenance>, v: Value) {
    if r.QueryRequest? then
      && state == Completed && p == None && v.SnapshotValue?
      && exists now :: Served(trace, c, r.query, now, v.snapshot)
    else exists a :: HasAsked(trace, c, a) && Reports(r, a, state, p, v)
  }

  /** A query that is not admitted, and why. */
  predicate NotAdmitted(chain: ChainId, q: SnapshotRequest, e: GatewayError) {
    && (q.chain != chain || q.policy.ttlMs == 0 || |q.tokens| > 16) && !e.retryable
    && e.code == if q.chain != chain then ChainMismatch else if q.policy.ttlMs == 0 then InvalidCachePolicy else InvalidRequest
  }

  /** The fetch failed, and what was looked up is too old to fall back on. */
  ghost predicate FetchFailed(trace: seq<Item>, c: nat, q: SnapshotRequest, now: nat, e: GatewayError) {
    && AsOf(trace, c, now) && HasFetched(trace, c, SnapshotCache.KeyOf(q), now, Failure(e))
    && exists cached :: HasPeeked(trace, c, SnapshotCache.KeyOf(q), cached) && SnapshotCache.StaleFallback(q, cached, now) == None
  }

  /** How the trace explains a failure: a query was not admitted or its fetch
      failed; another call was stopped by this obstacle first. */
  ghost predicate FailureShown(chain: ChainId, trace: seq<Item>, c: nat, r: Request, e: GatewayError) {
    if r.QueryRequest? then NotAdmitted(chain, r.query, e) || exists now :: FetchFailed(trace, c, r.query, now, e)
    else exists a :: HasAsked(trace, c, a) && StoppedBy(chain, r, a, e)
  }

  // ----- what calls have decided

  ghost predicate Sound(chain: ChainId, trace: seq<Item>, c: nat, r: Request, o: Outcome) {
    && Agrees(o) && Attested(chain, o.provenance)
    && (match o.answer
        case Success(v) => Admissible(chain, r) && SuccessShown(trace, c, r, o.state, o.provenance, v)
        case Failure(e) => FailureShown(chain, trace, c, r, e))
  }

  ghost predicate SoundPhase(chain: ChainId, trace: seq<Item>, c: nat, r: Request, p: Phase) {
    match p
    case Marking(_, mark) => mark.AsFinal? ==> Sound(chain, trace, c, r, mark.outcome)
    case Stamped(_, mark, _) => mark.AsFinal? ==> Sound(chain, trace, c, r, mark.outcome)
    case Looking(_, now) => r.QueryRequest? && Admissible(chain, r) && AsOf(trace, c, now)
    case Fetching(_, now, cached) =>
      && r.QueryRequest? && Admissible(chain, r) && AsOf(trace, c, now)
      && HasPeeked(trace, c, SnapshotCache.KeyOf(r.query), cached)
      && SnapshotCache.CachedResponse(r.query, cached, now) == None
    case Storing(_, now, s) =>
      && r.QueryRequest? && Admissible(chain, r) && AsOf(trace, c, now)
      && HasMissed(trace, c, r.query, now)
      && HasFetched(trace, c, SnapshotCache.KeyOf(r.query), now, Success(s))
    case Returned(_, answer) => (
      match answer
      case Success(response) =>
        && Admissible(chain, r)
        && SuccessShown(trace, c, r, response.operation.state, response.operation.provenance, response.value)
      case Failure(e) => FailureShown(chain, trace, c, r, e))
    case _ => true
  }

  /** Call d queried this key and fetched this entry for it. */
  ghost predicate FetchedBy(trace: seq<Item>, calls: seq<Call>, d: nat, key: SnapshotCache.Key,
                            e: SnapshotCache.Entry) {
    && d < |calls| && calls[d].Operation? && calls[d].request.QueryRequest?
    && SnapshotCache.KeyOf(calls[d].request.query) == key
    && HasFetched(trace, d, key, e.generatedAtMs, Success(e.snapshot))
  }

  ghost predicate SaveFetched(trace: seq<Item>, calls: seq<Call>, key: SnapshotCache.Key, e: SnapshotCache.Entry) {
    exists d: nat :: FetchedBy(trace, calls, d, key, e)
  }

  ghost predicate SavesFetched(trace: seq<Item>, calls: seq<Call>) {
    forall i :: 0 <= i < |Saves(trace)| ==> SaveFetched(trace, calls, Saves(trace)[i].0, Saves(trace)[i].1)
  }

  ghost predicate CallsSound(chain: ChainId, trace: seq<Item>, calls: seq<Call>) {
    forall c :: 0 <= c < |calls| && calls[c].Operation? ==> SoundPhase(chain, trace, c, calls[c].request, calls[c].phase)
  }

  ghost predicate AllSound(chain: ChainId, trace: seq<Item>, g: State) {
    CallsSound(chain, trace, g.calls) && SavesFetched(trace, g.calls)
  }

  // ----- what was shown stays shown

  lemma PeekedGrows(trace: seq<Item>, c: nat, key: SnapshotCache.Key, cached: Option<SnapshotCache.Entry>)
    requires trace != [] && HasPeeked(trace[..|trace| - 1], c, key, cached)
    ensures HasPeeked(trace, c, key, cached)
  {
    var init := trace[..|trace| - 1];
    var j: nat :| PeekedAt(init, c, j, key, cached);
    assert init[..j] == trace[..j];
    assert PeekedAt(trace, c, j, key, cached);
  }

  lemma FetchedGrows(trace: seq<Item>, c: nat, key: SnapshotCache.Key, now: nat, result: GatewayResult<Snapshot>)
    requires trace != [] && HasFetched(trace[..|trace| - 1], c, key, now, result)
    ensures HasFetched(trace, c, key, now, result)
  {
    hide Fetched;
    var init := trace[..|trace| - 1];
    var j: nat :| FetchedAt(init, c, j, key, now, result);
    assert init[..j] == trace[..j];
    assert FetchedAt(trace, c, j, key, now, result);
  }

  lemma MissedGrows(trace: seq<Item>, c: nat, q: SnapshotRequest, now: nat)
    requires trace != [] && HasMissed(trace[..|trace| - 1], c, q, now)
    ensures HasMissed(trace, c, q, now)
  {
    hide HasPeeked;
    var key := SnapshotCache.KeyOf(q);
    var cached :| HasPeeked(trace[..|trace| - 1], c, key, cached) && SnapshotCache.CachedResponse(q, cached, now) == None;
    PeekedGrows(trace, c, key, cached);
  }

  lemma SavedGrows(trace: seq<Item>, c: nat, key: SnapshotCache.Key, e: SnapshotCache.Entry)
    requires trace != [] && HasSaved(trace[..|trace| - 1], c, key, e)
    ensures HasSaved(trace, c, key, e)
  {
    var j: nat :| j < |trace| - 1 && trace[..|trace| - 1][j] == Did(c, Save(key, e));
    assert trace[j] == Did(c, Save(key, e));
  }

  lemma AskedGrows(trace: seq<Item>, c: nat, a: Answers)
    requires trace != [] && HasAsked(trace[..|trace| - 1], c, a)
    ensures HasAsked(trace, c, a)
  {
    var j: nat :| j < |trace| - 1 && trace[..|trace| - 1][j] == Did(c, Ask(a));
    assert trace[j] == Did(c, Ask(a));
  }

  lemma ServedGrows(trace: seq<Item>, c: nat, q: SnapshotRequest, now: nat, s: Snapshot)
    requires trace != [] && Served(trace[..|trace| - 1], c, q, now, s)
    ensures Served(trace, c, q, now, s)
  {
    hide HasPeeked, HasFetched, HasMissed, HasSaved;
    var init, key := trace[..|trace| - 1], SnapshotCache.KeyOf(q);
    if AsMiss(init, c, q, now, s) {
      MissedGrows(trace, c, q, now);
      FetchedGrows(trace, c, key, now, Success(s));
      SavedGrows(trace, c, key, SnapshotCache.Entry(now, s));
    } else if exists e :: AsHit(init, c, q, now, e, s) {
      var e :| AsHit(init, c, q, now, e, s);
      PeekedGrows(trace, c, key, Some(e));
      assert AsHit(trace, c, q, now, e, s);
    } else {
      var e :| AsStale(init, c, q, now, e, s);
      PeekedGrows(trace, c, key, Some(e));
      if !q.mode.BackgroundView? {
        var error :| HasFetched(init, c, key, now, Failure(error));
        FetchedGrows(trace, c, key, now, Failure(error));
      }
      assert AsStale(trace, c, q, now, e, s);
    }
  }

  lemma SuccessGrows(trace: seq<Item>, c: nat, r: Request, state: OperationState, p: Option<Provenance>, v: Value)
    requires trace != [] && SuccessShown(trace[..|trace| - 1], c, r, state, p, v)
    ensures SuccessShown(trace, c, r, state, p, v)
  {
    hide Served, HasAsked, Reports;
    if r.QueryRequest? {
      var now :| Served(trace[..|trace| - 1], c, r.query, now, v.snapshot);
      ServedGrows(trace, c, r.query, now, v.snapshot);
    } else {
      var a :| HasAsked(trace[..|trace| - 1], c, a) && Reports(r, a, state, p, v);
      AskedGrows(trace, c, a);
    }
  }

  lemma FailureGrows(chain: ChainId, trace: seq<Item>, c: nat, r: Request, e: GatewayError)
    requires trace != [] && FailureShown(chain, trace[..|trace| - 1], c, r, e)
    ensures FailureShown(chain, trace, c, r, e)
  {
    hide HasAsked, HasPeeked, HasFetched, StoppedBy, NotAdmitted;
    var init := trace[..|trace| - 1];
    if !r.QueryRequest? {
      var a :| HasAsked(init, c, a) && StoppedBy(chain, r, a, e);
      AskedGrows(trace, c, a);
    } else if !NotAdmitted(chain, r.query, e) {
      var key := SnapshotCache.KeyOf(r.query);
      var now :| FetchFailed(init, c, r.query, now, e);
      FetchedGrows(trace, c, key, now, Failure(e));
      var cached :| HasPeeked(init, c, key, cached) && SnapshotCache.StaleFallback(r.query, cached, now) == None;
      PeekedGrows(trace, c, key, cached);
      assert FetchFailed(trace, c, r.query, now, e);
    }
  }

  lemma OutcomeGrows(chain: ChainId, trace: seq<Item>, c: nat, r: Request, o: Outcome)
    requires trace != [] && Sound(chain, trace[..|trace| - 1], c, r, o)
    ensures Sound(chain, trace, c, r, o)
  {
    hide SuccessShown, FailureShown, Admissible, Agrees, Attested;
    match o.answer
    case Success(v) => SuccessGrows(trace, c, r, o.state, o.provenance, v);
    case Failure(e) => FailureGrows(chain, trace, c, r, e);
  }

  lemma SoundGrows(chain: ChainId, trace: seq<Item>, c: nat, r: Request, p: Phase)
    requires trace != [] && SoundPhase(chain, trace[..|trace| - 1], c, r, p)
    ensures SoundPhase(chain, trace, c, r, p)
  {
    hide HasPeeked, HasFetched, HasMissed, SuccessShown, FailureShown, Admissible, Sound;
    match p
    case Marking(_, AsFinal(o)) => OutcomeGrows(chain, trace, c, r, o);
    case Stamped(_, AsFinal(o), _) => OutcomeGrows(chain, trace, c, r, o);
    case Fetching(_, now, cached) => PeekedGrows(trace, c, SnapshotCache.KeyOf(r.query), cached);
    case Storing(_, now, s) =>
      MissedGrows(trace, c, r.query, now);
      FetchedGrows(trace, c, SnapshotCache.KeyOf(r.query), now, Success(s));
    case Returned(_, Success(response)) =>
      SuccessGrows(trace, c, r, response.operation.state, response.operation.provenance, response.value);
    case Returned(_, Failure(e)) => FailureGrows(chain, trace, c, r, e);
    case _ =>
  }

  // ----- one step of a call

  /** A lookup, and what it answers. */
  lemma PeekSound(chain: ChainId, trace: seq<Item>, c: nat, q: SnapshotRequest, id: OperationId, now: nat,
                  cached: Option<SnapshotCache.Entry>)
    requires AsOf(trace, c, now) && Admissible(chain, QueryRequest(q))
    requires HasPeeked(trace, c, SnapshotCache.KeyOf(q), cached)
    ensures SoundPhase(chain, trace, c, QueryRequest(q), AfterPeek(q, id, now, cached))
  {
    hide HasPeeked;
    match SnapshotCache.CachedResponse(q, cached, now)
    case Some(s) =>
      assert AsHit(trace, c, q, now, cached.value, s) || AsStale(trace, c, q, now, cached.value, s);
      assert Served(trace, c, q, now, s);
    case None =>
  }

  /** A fetch, and what it answers. */
  lemma FetchSound(chain: ChainId, trace: seq<Item>, c: nat, q: SnapshotRequest, id: OperationId, now: nat,
                   cached: Option<SnapshotCache.Entry>, fetched: GatewayResult<Snapshot>)
    requires AsOf(trace, c, now) && Admissible(chain, QueryRequest(q))
    requires HasPeeked(trace, c, SnapshotCache.KeyOf(q), cached) && SnapshotCache.CachedResponse(q, cached, now) == None
    requires HasFetched(trace, c, SnapshotCache.KeyOf(q), now, fetched)
    ensures SoundPhase(chain, trace, c, QueryRequest(q), AfterFetch(q, id, now, cached, fetched))
  {
    hide HasPeeked, HasFetched;
    if fetched.Failure? {
      match SnapshotCache.StaleFallback(q, cached, now) {
        case Some(s) =>
          assert AsStale(trace, c, q, now, cached.value, s);
          assert Served(trace, c, q, now, s);
        case None => assert FetchFailed(trace, c, q, now, fetched.error);
      }
    }
  }

  lemma StoringSound(chain: ChainId, trace: seq<Item>, c: nat, q: SnapshotRequest, id: OperationId, now: nat,
                     s: Snapshot)
    requires AsOf(trace, c, now) && Admissible(chain, QueryRequest(q))
    requires HasMissed(trace, c, q, now) && HasFetched(trace, c, SnapshotCache.KeyOf(q), now, Success(s))
    requires HasSaved(trace, c, SnapshotCache.KeyOf(q), SnapshotCache.Entry(now, s))
    ensures SoundPhase(chain, trace, c, QueryRequest(q), Complete(id, s))
  {
    hide HasFetched, HasMissed, HasSaved;
    assert Served(trace, c, q, now, s);
  }

  /** A decision, and how the trace explains it. */
  lemma DecisionSound(chain: ChainId, trace: seq<Item>, c: nat, r: Request, id: OperationId, a: Answers)
    requires !r.QueryRequest? && HasAsked(trace, c, a)
    ensures SoundPhase(chain, trace, c, r, Marking(id, AsFinal(Decide(chain, r, a))))
  {
    DecisionsAgree(chain, r, a);
    SucceedsWhen(chain, r, a);
    DecisionsReport(chain, r, a);
    hide HasAsked, Decide, Reports, StoppedBy, Admissible, Agrees, Attested;
    if Decide(chain, r, a).answer.Failure? {
      FailsWithFirst(chain, r, a, Decide(chain, r, a).answer.error);
    }
  }

  lemma CheckedFails(chain: ChainId, trace: seq<Item>, c: nat, q: SnapshotRequest, id: OperationId)
    requires CheckSnapshot(chain, q).Failure?
    ensures SoundPhase(chain, trace, c, QueryRequest(q), Marking(id, AsFinal(Reject(CheckSnapshot(chain, q).error, None))))
  {
    assert NotAdmitted(chain, q, CheckSnapshot(chain, q).error);
  }

  lemma NowAsked(trace: seq<Item>, c: nat, a: Answers)
    requires trace != [] && trace[|trace| - 1] == Did(c, Ask(a))
    ensures HasAsked(trace, c, a)
  {
  }

  lemma NowSaved(trace: seq<Item>, c: nat, key: SnapshotCache.Key, e: SnapshotCache.Entry)
    requires trace != [] && trace[|trace| - 1] == Did(c, Save(key, e))
    ensures HasSaved(trace, c, key, e)
  {
  }

  lemma NowPeeked(trace: seq<Item>, c: nat, key: SnapshotCache.Key, cached: Option<SnapshotCache.Entry>)
    requires trace != [] && trace[|trace| - 1] == Did(c, Peek(key, cached))
    requires cached.Some? ==> SnapshotCache.LastStored(Saves(trace[..|trace| - 1]), key) == cached
    ensures HasPeeked(trace, c, key, cached)
  {
    assert PeekedAt(trace, c, |trace| - 1, key, cached);
  }

  lemma NowFetched(trace: seq<Item>, c: nat, backend: Backend, key: SnapshotCache.Key, now: nat)
    requires trace != [] && trace[|trace| - 1] == Did(c, Fetch(backend)) && AsOf(trace[..|trace| - 1], c, now)
    ensures HasFetched(trace, c, key, now, Fetched(backend, key, now))
  {
    assert FetchedAt(trace, c, |trace| - 1, key, now, Fetched(backend, key, now));
  }

  /** Every step of a call keeps it sound, if what it looks up was stored last. */
  lemma PhaseSound(chain: ChainId, trace: seq<Item>, c: nat, r: Request, p: Phase, a: Action, p': Phase)
    requires trace != [] && trace[|trace| - 1] == Did(c, a)
    requires PhaseStep(chain, r, p, a, p') && SoundPhase(chain, trace[..|trace| - 1], c, r, p)
    requires Counted(p, Reads(trace[..|trace| - 1], c))
    requires a.Peek? && a.cached.Some? ==> SnapshotCache.LastStored(Saves(trace[..|trace| - 1]), a.key) == a.cached
    ensures SoundPhase(chain, trace, c, r, p')
  {
    SoundGrows(chain, trace, c, r, p);
    hide HasPeeked, HasFetched, HasMissed, HasSaved, HasAsked, SuccessShown, FailureShown, CheckSnapshot, Decide, AfterPeek,
         AfterFetch, Fetched, Admissible, Reject;
    match p
    case Working(id) =>
      if r.QueryRequest? {
        CheckedAdmissible(chain, r.query);
        if CheckSnapshot(chain, r.query).Failure? {
          CheckedFails(chain, trace, c, r.query, id);
        }
      } else {
        NowAsked(trace, c, a.answers);
        DecisionSound(chain, trace, c, r, id, a.answers);
      }
    case Looking(id, now) =>
      NowPeeked(trace, c, a.key, a.cached);
      PeekSound(chain, trace, c, r.query, id, now, a.cached);
    case Fetching(id, now, cached) =>
      NowFetched(trace, c, a.backend, SnapshotCache.KeyOf(r.query), now);
      FetchSound(chain, trace, c, r.query, id, now, cached, Fetched(a.backend, SnapshotCache.KeyOf(r.query), now));
    case Storing(id, now, s) =>
      NowSaved(trace, c, SnapshotCache.KeyOf(r.query), SnapshotCache.Entry(now, s));
      StoringSound(chain, trace, c, r.query, id, now, s);
    case _ =>
  }

  lemma CheckedAdmissible(chain: ChainId, q: SnapshotRequest)
    ensures CheckSnapshot(chain, q).Success? <==> Admissible(chain, QueryRequest(q))
  {
  }

  // ----- every step of the gateway

  lemma CalledSound(chain: ChainId, trace: seq<Item>, c: nat, call: Call)
    requires Arriving(call)
    ensures call.Operation? ==> SoundPhase(chain, trace, c, call.request, call.phase)
  {
  }

  lemma OnlyOperationsSave(chain: ChainId, c: Call, a: Action, c': Call)
    requires CallStep(chain, c, a, c') && (a.Save? || a.Write?)
    ensures c.Operation?
  {
  }

  lemma CallsStaySound(cfg: Config, trace: seq<Item>, g: State, g': State)
    requires trace != [] && CallsSound(cfg.chain, trace[..|trace| - 1], g.calls) && Next(cfg, g, trace[|trace| - 1], g')
    requires g.shared.cache == SnapshotCache.Run(SnapshotCache.EMPTY, Saves(trace[..|trace| - 1]), cfg.maxSnapshots)
    requires forall c :: 0 <= c < |g.calls| && g.calls[c].Operation? ==> Counted(g.calls[c].phase, Reads(trace[..|trace| - 1], c))
    ensures CallsSound(cfg.chain, trace, g'.calls)
  {
    hide SoundPhase, PhaseStep, PollStep, OperationStore.StoreStep, SnapshotCache.Stored, SnapshotCache.Run;
    var last := trace[|trace| - 1];
    forall d | 0 <= d < |g'.calls| && g'.calls[d].Operation?
      ensures SoundPhase(cfg.chain, trace, d, g'.calls[d].request, g'.calls[d].phase)
    {
      if last.Did? && last.caller == d {
        if last.action.Peek? && last.action.cached.Some? {
          SnapshotCache.HoldsLastStored(Saves(trace[..|trace| - 1]), cfg.maxSnapshots, last.action.key);
        }
        PhaseSound(cfg.chain, trace, d, g.calls[d].request, g.calls[d].phase, last.action, g'.calls[d].phase);
      } else if d < |g.calls| {
        SoundGrows(cfg.chain, trace, d, g.calls[d].request, g.calls[d].phase);
      } else {
        CalledSound(cfg.chain, trace, d, g'.calls[d]);
      }
    }
  }

  lemma RequestsStay(cfg: Config, g: State, item: Item, g': State, d: nat)
    requires Next(cfg, g, item, g') && d < |g.calls| && g.calls[d].Operation?
    ensures d < |g'.calls| && g'.calls[d].Operation? && g'.calls[d].request == g.calls[d].request
  {
    hide PhaseStep, PollStep, SharedStep;
  }

  lemma SaveStaysFetched(cfg: Config, trace: seq<Item>, g: State, g': State, key: SnapshotCache.Key,
                         e: SnapshotCache.Entry)
    requires trace != [] && Next(cfg, g, trace[|trace| - 1], g')
    requires SaveFetched(trace[..|trace| - 1], g.calls, key, e)
    ensures SaveFetched(trace, g'.calls, key, e)
  {
    hide Next, HasFetched;
    var d: nat :| FetchedBy(trace[..|trace| - 1], g.calls, d, key, e);
    RequestsStay(cfg, g, trace[|trace| - 1], g', d);
    FetchedGrows(trace, d, key, e.generatedAtMs, Success(e.snapshot));
    assert FetchedBy(trace, g'.calls, d, key, e);
  }

  /** What a call saves it has fetched. */
  lemma SaverFetched(cfg: Config, trace: seq<Item>, g: State, c: nat, key: SnapshotCache.Key, e: SnapshotCache.Entry,
                     g': State)
    requires CallsSound(cfg.chain, trace, g.calls) && Next(cfg, g, Did(c, Save(key, e)), g')
    ensures SaveFetched(trace, g.calls, key, e)
  {
    hide HasFetched, SharedStep;
    OnlyOperationsSave(cfg.chain, g.calls[c], Save(key, e), g'.calls[c]);
    assert SoundPhase(cfg.chain, trace, c, g.calls[c].request, g.calls[c].phase);
    assert FetchedBy(trace, g.calls, c, key, e);
  }

  lemma SavesStayFetched(cfg: Config, trace: seq<Item>, g: State, g': State)
    requires trace != [] && AllSound(cfg.chain, trace[..|trace| - 1], g) && Next(cfg, g, trace[|trace| - 1], g')
    ensures SavesFetched(trace, g'.calls)
  {
    hide Next, SaveFetched, CallsSound;
    var init, last := trace[..|trace| - 1], trace[|trace| - 1];
    if last.Did? && last.action.Save? {
      SaverFetched(cfg, init, g, last.caller, last.action.key, last.action.entry, g');
    }
    forall i | 0 <= i < |Saves(trace)| ensures SaveFetched(trace, g'.calls, Saves(trace)[i].0, Saves(trace)[i].1) {
      if i < |Saves(init)| {
        assert Saves(trace)[i] == Saves(init)[i];
      }
      SaveStaysFetched(cfg, trace, g, g', Saves(trace)[i].0, Saves(trace)[i].1);
    }
  }

  /** Invariant of every run: calls are sound, and every entry ever stored was
      fetched in the run by a call that queried its key. */
  lemma {:induction false} AlwaysSound(cfg: Config, trace: seq<Item>, g: State)
    requires Reached(cfg, trace, g)
    ensures AllSound(cfg.chain, trace, g)
  {
    if trace != [] {
      var init, last := trace[..|trace| - 1], trace[|trace| - 1];
      var p :| Reached(cfg, init, p) && Next(cfg, p, last, g);
      AlwaysSound(cfg, init, p);
      CacheFollows(cfg, init, p);
      hide Reached, Next, CallsSound, SavesFetched, SnapshotCache.Run, Counted;
      forall c | 0 <= c < |p.calls| && p.calls[c].Operation? ensures Counted(p.calls[c].phase, Reads(init, c)) {
        ReadsCounted(cfg, init, p, c);
      }
      CallsStaySound(cfg, trace, p, g);
      SavesStayFetched(cfg, trace, p, g);
    }
  }

  // ----- the theorems

  /** One step adds to what a call has written exactly the status it writes. */
  lemma PhaseWrites(chain: ChainId, trace: seq<Item>, c: nat, r: Request, p: Phase, a: Action, p': Phase,
                    w: seq<OperationStatus>)
    requires PhaseStep(chain, r, p, a, p') && SoundPhase(chain, trace, c, r, p) && HasWritten(r, p, w)
    ensures HasWritten(r, p', if a.Write? then w + [a.status] else w)
  {
    hide SuccessShown, FailureShown, HasPeeked, HasFetched, HasMissed, Admissible, CheckSnapshot, Decide, Fetched;
  }

  ghost predicate CallWritten(c: Call, w: seq<OperationStatus>) {
    match c
    case Operation(r, p) => HasWritten(r, p, w)
    case Lookup(_, _) => w == []
  }

  /** Over every run, each call that draws an id has written Queued, then
      Running, then exactly one terminal status: Rejected with the error it
      returned exactly when it returned one, otherwise the very operation of
      its response. */
  lemma {:induction false} Lifecycle(cfg: Config, trace: seq<Item>, g: State, c: nat)
    requires Reached(cfg, trace, g)
    ensures if c < |g.calls| then CallWritten(g.calls[c], Writes(trace, c)) else Writes(trace, c) == []
  {
    if trace != [] {
      var init, last := trace[..|trace| - 1], trace[|trace| - 1];
      var p :| Reached(cfg, init, p) && Next(cfg, p, last, g);
      Lifecycle(cfg, init, p, c);
      AlwaysSound(cfg, init, p);
      hide Reached, SharedStep, SoundPhase, HasWritten, PhaseStep;
      match last
      case Arrive(call) =>
        if c == |p.calls| {
          CalledWritten(call);
        }
      case Did(d, a) =>
        if d == c && p.calls[c].Operation? {
          PhaseWrites(cfg.chain, init, c, p.calls[c].request, p.calls[c].phase, a, g.calls[c].phase, Writes(init, c));
        }
    }
  }

  lemma CalledWritten(c: Call)
    requires Arriving(c)
    ensures CallWritten(c, [])
  {
  }

  /** A snapshot a query returns is its own fetch, or the entry stored last
      under its key when it looked, within the window of its policy and the
      server's clamps as of its query reading.  An active view gets a stale one
      only after its own fetch failed. */
  lemma SnapshotsServed(cfg: Config, trace: seq<Item>, g: State, c: nat)
    requires Reached(cfg, trace, g) && c < |g.calls| && g.calls[c].Operation? && g.calls[c].request.QueryRequest?
    requires g.calls[c].phase.Returned? && g.calls[c].phase.answer.Success?
    ensures var v := g.calls[c].phase.answer.value.value;
            v.SnapshotValue? && exists now :: Served(trace, c, g.calls[c].request.query, now, v.snapshot)
  {
    AlwaysSound(cfg, trace, g);
    hide Reached, Served, SavesFetched;
    assert SoundPhase(cfg.chain, trace, c, g.calls[c].request, g.calls[c].phase);
  }

  /** Over every run the cache lists each key once, stays within its ceiling,
      and holds under each key the entry stored last, which a call of the run
      fetched for that key as of its query reading. */
  lemma CacheAlways(cfg: Config, trace: seq<Item>, g: State)
    requires Reached(cfg, trace, g)
    ensures SnapshotCache.Consistent(g.shared.cache) && |g.shared.cache.entries| <= cfg.maxSnapshots
    ensures forall k :: k in g.shared.cache.entries ==>
              && SnapshotCache.LastStored(Saves(trace), k) == Some(g.shared.cache.entries[k])
              && SaveFetched(trace, g.calls, k, g.shared.cache.entries[k])
  {
    AlwaysSound(cfg, trace, g);
    CacheFollows(cfg, trace, g);
    hide Reached, CallsSound, SnapshotCache.Run, SnapshotCache.Consistent, SaveFetched;
    SnapshotCache.FifoWindow(Saves(trace), cfg.maxSnapshots);
    forall k | k in g.shared.cache.entries
      ensures SnapshotCache.LastStored(Saves(trace), k) == Some(g.shared.cache.entries[k])
      ensures SaveFetched(trace, g.calls, k, g.shared.cache.entries[k])
    {
      SnapshotCache.HoldsLastStored(Saves(trace), cfg.maxSnapshots, k);
      LastIsSaved(Saves(trace), k);
    }
  }

  lemma {:induction false} LastIsSaved(saves: seq<(SnapshotCache.Key, SnapshotCache.Entry)>, key: SnapshotCache.Key)
    requires SnapshotCache.LastStored(saves, key).Some?
    ensures (key, SnapshotCache.LastStored(saves, key).value) in saves
  {
    if saves[|saves| - 1].0 != key {
      LastIsSaved(saves[..|saves| - 1], key);
    }
  }

  /** Only admissible requests ever succeed: waits and token lists within
      bounds, the backend's own chain, raw hashes opted into. */
  lemma AdmittedAlways(cfg: Config, trace: seq<Item>, g: State, c: nat)
    requires Reached(cfg, trace, g) && c < |g.calls| && g.calls[c].Operation?
    requires g.calls[c].phase.Returned? && g.calls[c].phase.answer.Success?
    ensures Admissible(cfg.chain, g.calls[c].request)
  {
    AlwaysSound(cfg, trace, g);
    hide Reached, Admissible, SuccessShown, FailureShown, SavesFetched;
    assert SoundPhase(cfg.chain, trace, c, g.calls[c].request, g.calls[c].phase);
  }

  /** And what it says is what the call was told, and agrees with the operation
      written for it: the account and its provenance, the deployment and its
      transaction, the signature. */
  lemma ReportedAlways(cfg: Config, trace: seq<Item>, g: State, c: nat)
    requires Reached(cfg, trace, g) && c < |g.calls| && g.calls[c].Operation? && !g.calls[c].request.QueryRequest?
    requires g.calls[c].phase.Returned? && g.calls[c].phase.answer.Success?
    ensures var response := g.calls[c].phase.answer.value;
            exists a :: HasAsked(trace, c, a)
              && Reports(g.calls[c].request, a, response.operation.state, response.operation.provenance, response.value)
  {
    AlwaysSound(cfg, trace, g);
    hide Reached, Admissible, Reports, HasAsked, SavesFetched;
    assert SoundPhase(cfg.chain, trace, c, g.calls[c].request, g.calls[c].phase);
  }

  /** A call that failed was not admitted, or its fetch failed with nothing recent
      enough to fall back on, or the first obstacle it met was this error. */
  lemma FailuresExplained(cfg: Config, trace: seq<Item>, g: State, c: nat)
    requires Reached(cfg, trace, g) && c < |g.calls| && g.calls[c].Operation?
    requires g.calls[c].phase.Returned? && g.calls[c].phase.answer.Failure?
    ensures FailureShown(cfg.chain, trace, c, g.calls[c].request, g.calls[c].phase.answer.error)
  {
    AlwaysSound(cfg, trace, g);
    hide Reached, Admissible, SuccessShown, FailureShown, SavesFetched;
    assert SoundPhase(cfg.chain, trace, c, g.calls[c].request, g.calls[c].phase);
  }

  // ----- the contents of what is served

  /** Call d of this run asked that backend for the key, and it answered what the
      snapshot shows. */
  ghost predicate ShownBy(trace: seq<Item>, d: nat, j: nat, key: SnapshotCache.Key, s: Snapshot) {
    && j < |trace| && trace[j].Did? && trace[j].caller == d && trace[j].action.Fetch?
    && Shows(trace[j].action.backend, key, s)
  }

  lemma FetchShows(trace: seq<Item>, d: nat, key: SnapshotCache.Key, now: nat, e: Snapshot, s: Snapshot)
    requires HasFetched(trace, d, key, now, Success(e)) && s == e.(cache := s.cache)
    ensures exists j: nat :: ShownBy(trace, d, j, key, s)
  {
    var j: nat :| FetchedAt(trace, d, j, key, now, Success(e));
    FetchedShows(trace[j].action.backend, key, now);
    hide Fetched;
    assert ShownBy(trace, d, j, key, s);
  }

  /** Every returned snapshot, fresh or cached, shows what the backend answered
      some fetch of the run for its key. */
  lemma SnapshotsShow(cfg: Config, trace: seq<Item>, g: State, c: nat)
    requires Reached(cfg, trace, g) && c < |g.calls| && g.calls[c].Operation? && g.calls[c].request.QueryRequest?
    requires g.calls[c].phase.Returned? && g.calls[c].phase.answer.Success?
    ensures var v := g.calls[c].phase.answer.value.value;
            && v.SnapshotValue?
            && exists d: nat, j: nat :: ShownBy(trace, d, j, SnapshotCache.KeyOf(g.calls[c].request.query), v.snapshot)
  {
    SnapshotsServed(cfg, trace, g, c);
    AlwaysSound(cfg, trace, g);
    hide Reached, CallsSound, SavesFetched, HasFetched, HasPeeked, HasMissed, HasSaved, ShownBy, AsOf;
    var q, s := g.calls[c].request.query, g.calls[c].phase.answer.value.value.snapshot;
    var now :| Served(trace, c, q, now, s);
    if AsMiss(trace, c, q, now, s) {
      FetchShows(trace, c, SnapshotCache.KeyOf(q), now, s, s);
    } else if exists e :: AsHit(trace, c, q, now, e, s) {
      var e :| AsHit(trace, c, q, now, e, s);
      PeekedShows(trace, g.calls, c, SnapshotCache.KeyOf(q), e, s);
    } else {
      var e :| AsStale(trace, c, q, now, e, s);
      PeekedShows(trace, g.calls, c, SnapshotCache.KeyOf(q), e, s);
    }
  }

  lemma PeekedShows(trace: seq<Item>, calls: seq<Call>, c: nat, key: SnapshotCache.Key, e: SnapshotCache.Entry, s: Snapshot)
    requires SavesFetched(trace, calls) && HasPeeked(trace, c, key, Some(e)) && s == e.snapshot.(cache := s.cache)
    ensures exists d: nat, j: nat :: ShownBy(trace, d, j, key, s)
  {
    hide HasFetched, ShownBy;
    var j: nat :| PeekedAt(trace, c, j, key, Some(e));
    LastIsSaved(Saves(trace[..j]), key);
    SavesPrefix(trace, j);
    assert (key, e) in Saves(trace);
    var i :| 0 <= i < |Saves(trace)| && Saves(trace)[i] == (key, e);
    assert SaveFetched(trace, calls, key, e);
    var d: nat :| FetchedBy(trace, calls, d, key, e);
    FetchShows(trace, d, key, e.generatedAtMs, e.snapshot, s);
  }

  lemma {:induction false} SavesPrefix(trace: seq<Item>, j: nat)
    requires j <= |trace|
    ensures Saves(trace[..j]) <= Saves(trace)
  {
    if j == |trace| {
      assert trace[..j] == trace;
    } else {
      assert trace[..|trace| - 1][..j] == trace[..j];
      SavesPrefix(trace[..|trace| - 1], j);
    }
  }
}
