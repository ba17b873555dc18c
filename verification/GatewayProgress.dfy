/** No call of the gateway gets stuck or goes on forever. */
module GatewayProgress {
  import opened Outcomes
  import opened Domain
  import opened Flows
  import opened Gateway
  import opened GatewayRuns
  import opened OperationStore
  import SnapshotCache
  import SnapshotFetch
  import Clock

  // ----- pruning always has an outcome

  lemma {:induction false} Earliest(m: Entries) returns (first: OperationId)
    requires m != map[]
    ensures first in m && forall id :: id in m ==> EvictedBefore(m[first], m[id])
    decreases |m|
  {
    var id :| id in m;
    var rest := m - {id};
    assert |rest| < |m| by {
      assert rest.Keys == m.Keys - {id};
    }
    if rest == map[] {
      assert forall other :: other in m ==> other == id;
      return id;
    }
    var next := Earliest(rest);
    first := if EvictedBefore(m[id], m[next]) then id else next;
    forall other | other in m ensures EvictedBefore(m[first], m[other]) {
      assert other != id ==> other in rest && EvictedBefore(m[next], m[other]);
    }
  }

  lemma {:induction false} Trim(m: Entries, max: nat) returns (after: Entries)
    ensures after.Keys <= m.Keys && (forall id :: id in after ==> after[id] == m[id])
    ensures |after| == Clock.Min(|m|, max) && KeepsLater(m, after)
    decreases |m|
  {
    if |m| <= max {
      return m;
    }
    var first := Earliest(m);
    assert |m - {first}| == |m| - 1 by {
      assert (m - {first}).Keys == m.Keys - {first};
    }
    after := Trim(m - {first}, max);
  }

  lemma CanPrune(before: Entries, ttl: nat, max: nat, now: nat) returns (after: Entries)
    ensures Pruned(before, after, ttl, max, now)
  {
    MarkedSize(before, ttl, now);
    after := Trim(Marked(before, ttl, now), max);
  }

  lemma CanStep(s: OperationStore.StoreState, e: OperationStore.StoreEvent, ttl: nat,
                max: nat) returns (t: OperationStore.StoreState)
    ensures OperationStore.StoreStep(s, e, t, ttl, max)
  {
    var entries := CanPrune(OperationStore.Written(s, e), ttl, max, e.atMs);
    t := OperationStore.StoreState(entries, if e.Put? then Clock.SaturatingAdd(s.nextRevision, 1) else s.nextRevision);
  }

  // ----- every call moves, and only so often

  /** Steps a call can still take. */
  function Remaining(c: Call): nat {
    match c
    case Lookup(_, Asked) => 2
    case Lookup(_, Polling(_)) => 1
    case Lookup(_, Answered(_)) => 0
    case Operation(_, p) =>
      match p
      case Called => 11
      case Marking(_, mark) => if mark.AsQueued? then 10 else if mark.AsRunning? then 8 else 2
      case Stamped(_, mark, _) => if mark.AsQueued? then 9 else if mark.AsRunning? then 7 else 1
      case Working(_) => 6
      case Looking(_, _) => 5
      case Fetching(_, _, _) => 4
      case Storing(_, _, _) => 3
      case Returned(_, _) => 0
      case Refused(_) => 0
  }

  /** A call ends after at most eleven of its own steps. */
  lemma EveryStepCounts(chain: ChainId, c: Call, a: Action, c': Call)
    requires CallStep(chain, c, a, c')
    ensures Remaining(c') < Remaining(c) <= 11
  {
    hide Decide, CheckSnapshot, SnapshotFetch.Fetched;
  }

  /** The items of a trace that are steps of call `c`. */
  function Steps(trace: seq<Item>, c: nat): nat {
    if trace == [] then 0
    else
      var last := trace[|trace| - 1];
      Steps(trace[..|trace| - 1], c) + if last.Did? && last.caller == c then 1 else 0
  }

  function Fetches(trace: seq<Item>, c: nat): nat {
    if trace == [] then 0
    else
      var last := trace[|trace| - 1];
      Fetches(trace[..|trace| - 1], c) + if last.Did? && last.caller == c && last.action.Fetch? then 1 else 0
  }

  lemma FetchLeaves(chain: ChainId, c: Call, a: Action, c': Call)
    requires CallStep(chain, c, a, c') && a.Fetch?
    ensures Remaining(c) == 4
  {
  }

  /** In every run a call takes at most eleven steps, and the steps it took and
      those it can still take never exceed that; it fetches at most once. */
  lemma {:induction false} StepsBounded(cfg: Config, trace: seq<Item>, g: State, c: nat)
    requires Reached(cfg, trace, g)
    ensures if c < |g.calls| then Steps(trace, c) + Remaining(g.calls[c]) <= 11 else Steps(trace, c) == 0
    ensures if c < |g.calls| && Remaining(g.calls[c]) < 4 then Fetches(trace, c) <= 1 else Fetches(trace, c) == 0
  {
    if trace != [] {
      var init, last := trace[..|trace| - 1], trace[|trace| - 1];
      var p :| Reached(cfg, init, p) && Next(cfg, p, last, g);
      StepsBounded(cfg, init, p, c);
      hide Reached, SharedStep, CallStep, Remaining;
      if last.Did? && last.caller == c {
        EveryStepCounts(cfg.chain, p.calls[c], last.action, g.calls[c]);
        if last.action.Fetch? {
          FetchLeaves(cfg.chain, p.calls[c], last.action, g.calls[c]);
        }
      } else if last.Arrive? {
        ArrivingRemaining(last.call);
      }
    }
  }

  lemma ArrivingRemaining(c: Call)
    requires Arriving(c)
    ensures Remaining(c) == if c.Operation? then 11 else 2
  {
  }

  /** A fetch in any run costs the backend at most nineteen queries: only
      admitted queries fetch, and those track at most sixteen tokens. */
  lemma {:induction false} FetchesBounded(cfg: Config, trace: seq<Item>, g: State, j: nat)
    requires Reached(cfg, trace, g) && j < |trace| && trace[j].Did? && trace[j].action.Fetch?
    ensures trace[j].caller < |g.calls| && g.calls[trace[j].caller].Operation?
    ensures var r := g.calls[trace[j].caller].request;
            && r.QueryRequest? && Admissible(cfg.chain, r)
            && |SnapshotFetch.Queries(trace[j].action.backend, SnapshotCache.KeyOf(r.query))| <= 19
    decreases |trace|
  {
    var init, last := trace[..|trace| - 1], trace[|trace| - 1];
    var p :| Reached(cfg, init, p) && Next(cfg, p, last, g);
    var c := trace[j].caller;
    if j < |init| {
      assert init[j] == trace[j];
      FetchesBounded(cfg, init, p, j);
    } else {
      AlwaysSound(cfg, init, p);
      FetcherAdmitted(cfg, init, p, c, last.action, g);
    }
    hide Reached, Next, SnapshotFetch.Queries;
    RequestsStay(cfg, p, last, g, c);
  }

  lemma FetcherAdmitted(cfg: Config, trace: seq<Item>, g: State, c: nat, a: Action, g': State)
    requires CallsSound(cfg.chain, trace, g.calls) && Next(cfg, g, Did(c, a), g') && a.Fetch?
    ensures g.calls[c].Operation?
    ensures var r := g.calls[c].request;
            && r.QueryRequest? && Admissible(cfg.chain, r)
            && |SnapshotFetch.Queries(a.backend, SnapshotCache.KeyOf(r.query))| <= 19
  {
    hide HasPeeked, HasFetched, SharedStep, SnapshotFetch.Queries;
    assert SoundPhase(cfg.chain, trace, c, g.calls[c].request, g.calls[c].phase);
    SnapshotFetch.FetchCost(a.backend, SnapshotCache.KeyOf(g.calls[c].request.query), 0);
  }

  // ----- no call gets stuck

  /** What the world answers a step: an id, a time to pass, the resolver,
      signer and backend, and a snapshot fetch. */
  datatype World = World(drawn: GatewayResult<OperationId>, waitMs: nat, answers: Answers, backend: SnapshotFetch.Backend)

  /** The step uses the world's answers where it asks for them. */
  ghost predicate Heeds(clock: nat, w: World, a: Action) {
    match a
    case Draw(drawn) => drawn == w.drawn
    case Read(reading) => reading == clock + w.waitMs
    case Ask(answers) => answers == w.answers
    case Fetch(backend) => backend == w.backend
    case _ => true
  }

  lemma CallMoves(chain: ChainId, c: Call, clock: nat, w: World, cached: Option<SnapshotCache.Entry>)
    returns (a: Action, c': Call)
    requires Remaining(c) > 0 && !(c.Lookup? && c.poll.Polling?)
    requires c.Operation? && (c.phase.Looking? || c.phase.Fetching? || c.phase.Storing?) ==> c.request.QueryRequest?
    ensures CallStep(chain, c, a, c') && Heeds(clock, w, a) && !a.Look?
    ensures a.Peek? ==> a.cached == cached
  {
    hide Decide, CheckSnapshot, SnapshotFetch.Fetched, AfterPeek, AfterFetch;
    match c
    case Lookup(id, _) => a, c' := Read(clock + w.waitMs), Lookup(id, Polling(clock + w.waitMs));
    case Operation(r, p) =>
      var p': Phase;
      match p {
        case Called =>
          a, p' := Draw(w.drawn), if w.drawn.Success? then Marking(w.drawn.value, AsQueued) else Refused(w.drawn.error);
        case Marking(id, mark) => a, p' := Read(clock + w.waitMs), Stamped(id, mark, clock + w.waitMs);
        case Stamped(id, mark, at) =>
          a, p' := Write(StatusOf(r, id, mark), at), AfterWrite(id, mark, StatusOf(r, id, mark));
        case Working(id) =>
          if r.QueryRequest? {
            var checked := CheckSnapshot(chain, r.query);
            if checked.Failure? {
              a, p' := Refuse, Marking(id, AsFinal(Reject(checked.error, None)));
            } else {
              a, p' := Read(clock + w.waitMs), Looking(id, clock + w.waitMs);
            }
          } else {
            a, p' := Ask(w.answers), Marking(id, AsFinal(Decide(chain, r, w.answers)));
          }
        case Looking(id, now) =>
          a, p' := Peek(SnapshotCache.KeyOf(r.query), cached), AfterPeek(r.query, id, now, cached);
        case Fetching(id, now, was) =>
          var key := SnapshotCache.KeyOf(r.query);
          a, p' := Fetch(w.backend), AfterFetch(r.query, id, now, was, SnapshotFetch.Fetched(w.backend, key, now));
        case Storing(id, now, s) =>
          a, p' := Save(SnapshotCache.KeyOf(r.query), SnapshotCache.Entry(now, s)), Complete(id, s);
      }
      c' := Operation(r, p');
  }

  lemma SharedMoves(cfg: Config, s: Shared, a: Action) returns (s': Shared)
    requires a.Read? ==> s.clock <= a.reading
    requires a.Peek? ==> a.cached == CacheLookup(s.cache, a.key)
    requires !a.Look?
    ensures SharedStep(cfg, s, a, s')
  {
    hide OperationStore.StoreStep, SnapshotCache.Stored;
    s' := s;
    if a.Write? {
      var t := CanStep(s.store, OperationStore.Put(a.status, a.atMs), cfg.ttlMs, cfg.maxOperations);
      s' := s.(store := t);
    } else if a.Read? {
      s' := s.(clock := a.reading);
    } else if a.Save? {
      s' := s.(cache := SnapshotCache.Stored(s.cache, a.key, a.entry, cfg.maxSnapshots));
    }
  }

  /** In every reachable state every unfinished call has a step to take,
      whatever the world answers it, and takes that answer: the drawn id, the
      passing of time, a decision on the given answers, a fetch from the given
      backend. */
  lemma Progress(cfg: Config, trace: seq<Item>, g: State, c: nat, w: World) returns (a: Action, g': State)
    requires Reached(cfg, trace, g) && c < |g.calls| && Remaining(g.calls[c]) > 0
    ensures Next(cfg, g, Did(c, a), g') && Heeds(g.shared.clock, w, a)
    ensures var call, next := g.calls[c], g'.calls[c];
            && (call.Operation? && call.phase.Working? && !call.request.QueryRequest? ==>
                  next == Operation(call.request, Marking(call.phase.id, AsFinal(Decide(cfg.chain, call.request, w.answers)))))
            && (call.Operation? && call.phase.Fetching? ==>
                  && call.request.QueryRequest?
                  && next == Operation(call.request, AfterFetch(call.request.query, call.phase.id, call.phase.nowMs, call.phase.cached,
                               SnapshotFetch.Fetched(w.backend, SnapshotCache.KeyOf(call.request.query), call.phase.nowMs))))
  {
    AlwaysSound(cfg, trace, g);
    var call := g.calls[c];
    if call.Lookup? && call.poll.Polling? {
      hide Reached, Next, CallStep, SavesFetched;
      a, g' := LookupMoves(cfg, g, c);
    } else {
      assert call.Operation? ==> SoundPhase(cfg.chain, trace, c, call.request, call.phase);
      hide Reached, Next, CallStep, CallsSound, SavesFetched, HasPeeked, HasFetched, HasMissed, SuccessShown, FailureShown;
      var cached := if call.Operation? && call.request.QueryRequest?
        then CacheLookup(g.shared.cache, SnapshotCache.KeyOf(call.request.query)) else None;
      var c';
      a, c' := CallMoves(cfg.chain, call, g.shared.clock, w, cached);
      MovesSeen(cfg.chain, call, a, c');
      g' := Moves(cfg, g, c, a, c');
    }
  }

  lemma LookupMoves(cfg: Config, g: State, c: nat) returns (a: Action, g': State)
    requires c < |g.calls| && g.calls[c].Lookup? && g.calls[c].poll.Polling?
    ensures Next(cfg, g, Did(c, a), g') && a.Look?
  {
    hide OperationStore.StoreStep;
    var id, at := g.calls[c].id, g.calls[c].poll.atMs;
    var t := CanStep(g.shared.store, OperationStore.Look(id, at), cfg.ttlMs, cfg.maxOperations);
    a := Action.Look(id, at, Lookups(t.entries, id));
    g' := State(g.shared.(store := t), g.calls[c := Lookup(id, Answered(a.found))]);
  }

  lemma Moves(cfg: Config, g: State, c: nat, a: Action, c': Call) returns (g': State)
    requires c < |g.calls| && CallStep(cfg.chain, g.calls[c], a, c')
    requires a.Read? ==> g.shared.clock <= a.reading
    requires a.Peek? ==> a.cached == CacheLookup(g.shared.cache, a.key)
    requires !a.Look?
    ensures Next(cfg, g, Did(c, a), g') && g'.calls == g.calls[c := c'] && SharedStep(cfg, g.shared, a, g'.shared)
  {
    hide CallStep, SharedStep;
    var s' := SharedMoves(cfg, g.shared, a);
    g' := State(s', g.calls[c := c']);
  }

  /** What a step is determines where it leads. */
  lemma MovesSeen(chain: ChainId, c: Call, a: Action, c': Call)
    requires CallStep(chain, c, a, c')
    ensures a.Peek? ==> c.Operation? && c.request.QueryRequest? && a.key == SnapshotCache.KeyOf(c.request.query)
    ensures c.Operation? && c.phase.Working? && !c.request.QueryRequest? ==>
              a.Ask? && c' == Operation(c.request, Marking(c.phase.id, AsFinal(Decide(chain, c.request, a.answers))))
    ensures c.Operation? && c.phase.Fetching? ==>
              && a.Fetch? && c.request.QueryRequest?
              && c' == Operation(c.request, AfterFetch(c.request.query, c.phase.id, c.phase.nowMs, c.phase.cached,
                         SnapshotFetch.Fetched(a.backend, SnapshotCache.KeyOf(c.request.query), c.phase.nowMs)))
  {
    hide Decide, CheckSnapshot, SnapshotFetch.Fetched, AfterFetch, AfterPeek;
  }
}
