/** What a status lookup reports of a call that has returned, over every run. */
module GatewayStatus {
  import opened Outcomes
  import opened Domain
  import opened Flows
  import opened Gateway
  import opened GatewayRuns
  import opened Clock
  import OperationStore
  import StoreHistory

  // ----- what is written, by whom, and when

  /** Nothing is written Expired, and every recorded provenance is attested. */
  predicate SoundWrite(chain: ChainId, status: OperationStatus) {
    !status.state.Expired? && Attested(chain, status.provenance)
  }

  lemma WriteIsSound(chain: ChainId, trace: seq<Item>, c: nat, r: Request, p: Phase, a: Action, p': Phase)
    requires PhaseStep(chain, r, p, a, p') && SoundPhase(chain, trace, c, r, p) && a.Write?
    ensures SoundWrite(chain, a.status)
  {
    hide SuccessShown, FailureShown;
  }

  lemma NewWriteSound(cfg: Config, trace: seq<Item>, g: State, c: nat, a: Action, g': State)
    requires CallsSound(cfg.chain, trace, g.calls) && Next(cfg, g, Did(c, a), g') && a.Write?
    ensures SoundWrite(cfg.chain, a.status)
  {
    hide SharedStep, SoundPhase, PhaseStep, SoundWrite;
    OnlyOperationsSave(cfg.chain, g.calls[c], a, g'.calls[c]);
    WriteIsSound(cfg.chain, trace, c, g.calls[c].request, g.calls[c].phase, a, g'.calls[c].phase);
  }

  ghost predicate AllAttested(chain: ChainId, events: seq<OperationStore.StoreEvent>) {
    forall i :: 0 <= i < |events| && events[i].Put? ==> SoundWrite(chain, events[i].status)
  }

  /** Over every run, each status written names only checked facts. */
  lemma {:induction false} AttestedAlways(cfg: Config, trace: seq<Item>, g: State)
    requires Reached(cfg, trace, g)
    ensures AllAttested(cfg.chain, Events(trace))
  {
    if trace != [] {
      var init, last := trace[..|trace| - 1], trace[|trace| - 1];
      var p :| Reached(cfg, init, p) && Next(cfg, p, last, g);
      hide Reached, Next, CallsSound, SavesFetched, SoundWrite, Events;
      AttestedAlways(cfg, init, p);
      EventsSnoc(trace);
      if last.Did? && last.action.Write? {
        AlwaysSound(cfg, init, p);
        NewWriteSound(cfg, init, p, last.caller, last.action, g);
      }
    }
  }

  /** The id a call has drawn. */
  function IdOf(c: Call): Option<OperationId> {
    match c
    case Lookup(_, _) => None
    case Operation(_, p) => if p.Called? || p.Refused? then None else Some(p.id)
  }

  lemma StepKeepsId(chain: ChainId, c: Call, a: Action, c': Call)
    requires CallStep(chain, c, a, c')
    ensures IdOf(c).Some? ==> IdOf(c') == IdOf(c)
    ensures a.Write? ==> IdOf(c') == Some(a.status.id)
  {
    hide Decide, CheckSnapshot, SnapshotFetch.Fetched;
  }

  ghost predicate Owned(trace: seq<Item>, g: State) {
    forall i :: 0 <= i < |trace| && trace[i].Did? && trace[i].action.Write? ==>
      trace[i].caller < |g.calls| && IdOf(g.calls[trace[i].caller]) == Some(trace[i].action.status.id)
  }

  lemma OwnedStep(cfg: Config, trace: seq<Item>, g: State, g': State)
    requires trace != [] && Owned(trace[..|trace| - 1], g) && Next(cfg, g, trace[|trace| - 1], g')
    ensures Owned(trace, g')
  {
    hide SharedStep, CallStep, IdOf;
    var last := trace[|trace| - 1];
    if last.Did? {
      StepKeepsId(cfg.chain, g.calls[last.caller], last.action, g'.calls[last.caller]);
    }
    forall i | 0 <= i < |trace| && trace[i].Did? && trace[i].action.Write?
      ensures trace[i].caller < |g'.calls| && IdOf(g'.calls[trace[i].caller]) == Some(trace[i].action.status.id)
    {
      if i < |trace| - 1 {
        assert trace[..|trace| - 1][i] == trace[i];
      }
    }
  }

  /** Calls write only under their own id. */
  lemma {:induction false} WritesOwn(cfg: Config, trace: seq<Item>, g: State)
    requires Reached(cfg, trace, g)
    ensures Owned(trace, g)
  {
    if trace != [] {
      var init, last := trace[..|trace| - 1], trace[|trace| - 1];
      var p :| Reached(cfg, init, p) && Next(cfg, p, last, g);
      WritesOwn(cfg, init, p);
      hide Reached, Next, Owned;
      OwnedStep(cfg, trace, p, g);
    }
  }

  // ----- from calls to the store's history

  /** The statuses written under `id`. */
  function PutUnder(events: seq<OperationStore.StoreEvent>, id: OperationId): seq<OperationStatus> {
    if events == [] then []
    else
      var init, last := PutUnder(events[..|events| - 1], id), events[|events| - 1];
      if last.Put? && last.status.id == id then init + [last.status] else init
  }

  lemma {:induction false} LastPutUnder(events: seq<OperationStore.StoreEvent>, id: OperationId)
    requires PutUnder(events, id) != []
    ensures var i := StoreHistory.LastPut(events, id);
            i >= 0 && events[i].status == PutUnder(events, id)[|PutUnder(events, id)| - 1]
  {
    var last := events[|events| - 1];
    if !(last.Put? && last.status.id == id) {
      LastPutUnder(events[..|events| - 1], id);
    }
  }

  ghost predicate OnlyWriter(trace: seq<Item>, c: nat, id: OperationId) {
    forall i :: 0 <= i < |trace| && trace[i].Did? && trace[i].action.Write? ==>
      (trace[i].caller == c <==> trace[i].action.status.id == id)
  }

  /** If only call `c` writes under `id`, its writes are the id's history. */
  lemma {:induction false} HistoryOfCall(trace: seq<Item>, c: nat, id: OperationId)
    requires OnlyWriter(trace, c, id)
    ensures PutUnder(Events(trace), id) == Writes(trace, c)
  {
    if trace != [] {
      var init, last := trace[..|trace| - 1], trace[|trace| - 1];
      HistoryOfCall(init, c, id);
      assert last == trace[|trace| - 1];
      assert Events(trace)[..|Events(init)|] == Events(init);
    }
  }

  lemma {:induction false} EventsBounded(trace: seq<Item>)
    ensures |Events(trace)| <= |trace|
  {
    if trace != [] {
      EventsBounded(trace[..|trace| - 1]);
    }
  }

  // ----- times

  ghost predicate TimedCall(clock: nat, c: Call) {
    match c
    case Operation(_, p) => p.Stamped? ==> p.atMs <= clock
    case Lookup(_, p) => p.Polling? ==> p.atMs <= clock
  }

  ghost predicate TimedCalls(g: State) {
    forall c :: 0 <= c < |g.calls| ==> TimedCall(g.shared.clock, g.calls[c])
  }

  ghost predicate TimedEvents(events: seq<OperationStore.StoreEvent>, clock: nat) {
    forall i :: 0 <= i < |events| ==> events[i].atMs <= clock
  }

  ghost predicate Timed(events: seq<OperationStore.StoreEvent>, g: State) {
    TimedCalls(g) && TimedEvents(events, g.shared.clock)
  }

  lemma StepTimed(cfg: Config, s: Shared, c: Call, a: Action, s': Shared, c': Call)
    requires CallStep(cfg.chain, c, a, c') && SharedStep(cfg, s, a, s') && TimedCall(s.clock, c)
    ensures s.clock <= s'.clock && TimedCall(s'.clock, c')
    ensures a.Write? || a.Look? ==> a.atMs <= s'.clock
  {
    hide Decide, CheckSnapshot, SnapshotFetch.Fetched, OperationStore.StoreStep, SnapshotCache.Stored;
  }

  lemma NextTimed(cfg: Config, trace: seq<Item>, g: State, g': State)
    requires trace != [] && Timed(Events(trace[..|trace| - 1]), g) && Next(cfg, g, trace[|trace| - 1], g')
    ensures Timed(Events(trace), g')
  {
    hide SharedStep, CallStep, TimedCall, TimedEvents, Events;
    var last := trace[|trace| - 1];
    if last.Did? {
      StepTimed(cfg, g.shared, g.calls[last.caller], last.action, g'.shared, g'.calls[last.caller]);
      forall c | 0 <= c < |g.calls| && c != last.caller ensures TimedCall(g'.shared.clock, g'.calls[c]) {
        LaterTimed(g.shared.clock, g'.shared.clock, g.calls[c]);
      }
    } else {
      ArrivingTimed(g.shared.clock, last.call);
    }
    assert TimedCalls(g');
    hide TimedCalls, Next;
    EventTimed(trace, g.shared.clock, g'.shared.clock);
  }

  lemma LaterTimed(clock: nat, later: nat, c: Call)
    requires TimedCall(clock, c) && clock <= later
    ensures TimedCall(later, c)
  {
  }

  lemma ArrivingTimed(clock: nat, c: Call)
    requires Arriving(c)
    ensures TimedCall(clock, c)
  {
  }

  lemma EventTimed(trace: seq<Item>, clock: nat, later: nat)
    requires trace != [] && TimedEvents(Events(trace[..|trace| - 1]), clock) && clock <= later
    requires var e := EventOf(trace[|trace| - 1]); e.Some? ==> e.value.atMs <= later
    ensures TimedEvents(Events(trace), later)
  {
    EventsSnoc(trace);
    hide EventOf, Events;
  }

  /** No time handed to the store is ahead of the clock. */
  lemma {:induction false} TimedAlways(cfg: Config, trace: seq<Item>, g: State)
    requires Reached(cfg, trace, g)
    ensures Timed(Events(trace), g)
  {
    if trace != [] {
      var init, last := trace[..|trace| - 1], trace[|trace| - 1];
      var p :| Reached(cfg, init, p) && Next(cfg, p, last, g);
      TimedAlways(cfg, init, p);
      hide Reached, Next, Timed;
      NextTimed(cfg, trace, p, g);
    }
  }

  // ----- the status of a returned call

  ghost predicate Unshared(g: State, c: nat, id: OperationId) {
    forall d :: 0 <= d < |g.calls| && d != c ==> IdOf(g.calls[d]) != Some(id)
  }

  /** The last write under a call's own id is the last status it wrote. */
  lemma LastWrite(cfg: Config, trace: seq<Item>, g: State, c: nat, id: OperationId)
    requires Reached(cfg, trace, g) && c < |g.calls| && IdOf(g.calls[c]) == Some(id) && Unshared(g, c, id)
    ensures var events, written := Events(trace), Writes(trace, c);
            var i := StoreHistory.LastPut(events, id);
            if written == [] then i == -1
            else i >= 0 && events[i].status == written[|written| - 1] && SoundWrite(cfg.chain, events[i].status)
  {
    WritesOwn(cfg, trace, g);
    AttestedAlways(cfg, trace, g);
    hide Reached, SoundWrite, IdOf;
    SoleWriter(trace, g, c, id);
    hide Owned, Unshared;
    HistoryOfCall(trace, c, id);
    if Writes(trace, c) == [] {
      NoPutUnder(Events(trace), id);
    } else {
      LastPutUnder(Events(trace), id);
    }
  }

  lemma {:induction false} NoPutUnder(events: seq<OperationStore.StoreEvent>, id: OperationId)
    requires PutUnder(events, id) == []
    ensures StoreHistory.LastPut(events, id) == -1
  {
    if events != [] {
      NoPutUnder(events[..|events| - 1], id);
    }
  }

  lemma SoleWriter(trace: seq<Item>, g: State, c: nat, id: OperationId)
    requires Owned(trace, g) && Unshared(g, c, id) && c < |g.calls| && IdOf(g.calls[c]) == Some(id)
    ensures OnlyWriter(trace, c, id)
  {
    hide IdOf;
  }

  /** Asking for a call's status at any point of a run: what is found is the
      last status the call wrote, or that status marked Expired once a store
      event has come more than the TTL after the write, and nothing before its
      first write.  While the clock is within the TTL of the write and fewer than
      `maxOperations` other ids were written since, it is found unchanged. */
  lemma StatusAlways(cfg: Config, trace: seq<Item>, g: State, c: nat, id: OperationId,
                     d: nat, at: nat, found: Option<OperationStatus>)
    requires |trace| < U64_MAX && Reached(cfg, trace, g)
    requires c < |g.calls| && IdOf(g.calls[c]) == Some(id) && Unshared(g, c, id)
    requires trace != [] && trace[|trace| - 1] == Did(d, Action.Look(id, at, found))
    ensures var events, written := Events(trace), Writes(trace, c);
            var i := StoreHistory.LastPut(events, id);
            if written == [] then found == None
            else
              && i >= 0 && events[i].status == written[|written| - 1]
              && (found.Some? ==> found.value == StoreHistory.Recorded(events, i, cfg.ttlMs).status)
              && (g.shared.clock - events[i].atMs <= cfg.ttlMs && |StoreHistory.Newer(events, i)| < cfg.maxOperations
                  ==> found == Some(events[i].status))
  {
    hide Reached, Events, Writes, IdOf, Unshared, TimedCalls, TimedEvents, StoreHistory.Reaches, StoreHistory.Newer,
         StoreHistory.Recorded, StoreHistory.LastPut, Lookups, Attested;
    LastWrite(cfg, trace, g, c, id);
    FoundInStore(cfg, trace, g, d, id, at, found);
    StoreFollows(cfg, trace, g);
    TimedAlways(cfg, trace, g);
    EventsBounded(trace);
    LookupFinds(Events(trace), g.shared.store, cfg.ttlMs, cfg.maxOperations, id, g.shared.clock);
  }

  /** What the store's history says of a lookup. */
  lemma LookupFinds(events: seq<OperationStore.StoreEvent>, t: OperationStore.StoreState, ttl: nat, max: nat,
                    id: OperationId, clock: nat)
    requires |events| < U64_MAX && StoreHistory.Reaches(events, t, ttl, max) && TimedEvents(events, clock)
    ensures var i, found := StoreHistory.LastPut(events, id), Lookups(t.entries, id);
            if i == -1 then found == None
            else
              && (found.Some? ==> found.value == StoreHistory.Recorded(events, i, ttl).status)
              && (clock - events[i].atMs <= ttl && |StoreHistory.Newer(events, i)| < max && !events[i].status.state.Expired?
                  ==> found == Some(events[i].status))
  {
    hide StoreHistory.Reaches, StoreHistory.Puts, StoreHistory.Newer;
    var i := StoreHistory.LastPut(events, id);
    StoreHistory.ReadsHistory(events, t, ttl, max);
    if i >= 0 && clock - events[i].atMs <= ttl && |StoreHistory.Newer(events, i)| < max && !events[i].status.state.Expired? {
      assert !StoreHistory.Overdue(events, i, ttl);
      StoreHistory.Retained(events, t, ttl, max, id);
    }
  }

  /** In particular a returned call's status is the terminal one that closed it. */
  lemma StatusAfterReturn(cfg: Config, trace: seq<Item>, g: State, c: nat, r: Request, id: OperationId,
                          answer: GatewayResult<Response>, d: nat, at: nat, found: Option<OperationStatus>)
    requires |trace| < U64_MAX && Reached(cfg, trace, g)
    requires c < |g.calls| && g.calls[c] == Operation(r, Returned(id, answer)) && Unshared(g, c, id)
    requires trace != [] && trace[|trace| - 1] == Did(d, Action.Look(id, at, found))
    ensures var events := Events(trace);
            var i := StoreHistory.LastPut(events, id);
            && i >= 0 && Closes(events[i].status, answer)
            && (found.Some? ==> found.value == StoreHistory.Recorded(events, i, cfg.ttlMs).status)
            && (g.shared.clock - events[i].atMs <= cfg.ttlMs && |StoreHistory.Newer(events, i)| < cfg.maxOperations
                ==> found == Some(events[i].status))
  {
    Lifecycle(cfg, trace, g, c);
    StatusAlways(cfg, trace, g, c, id, d, at, found);
    hide Reached, Events, Writes, Unshared, StoreHistory.Recorded, StoreHistory.Newer, Closes;
  }

  lemma FoundInStore(cfg: Config, trace: seq<Item>, g: State, d: nat, id: OperationId, at: nat,
                     found: Option<OperationStatus>)
    requires Reached(cfg, trace, g) && trace != [] && trace[|trace| - 1] == Did(d, Action.Look(id, at, found))
    ensures found == Lookups(g.shared.store.entries, id)
  {
    hide CallStep, OperationStore.StoreStep;
  }
}
