/** Two refreshes of one key: the later save wins, whichever fetched earlier. */
module GatewayRaces {
  import opened Outcomes
  import opened Domain
  import opened Flows
  import opened Gateway
  import opened GatewayRuns
  import opened GatewayProgress
  import SnapshotFetch
  import OperationStore
  import SnapshotCache

  // ----- a save that lowers a generation time

  /** What the stores of a trace make of the cache. */
  function CacheAfter(trace: seq<Item>, max: nat): SnapshotCache.Cache {
    SnapshotCache.Run(SnapshotCache.EMPTY, Saves(trace), max)
  }

  lemma CacheAfterStep(trace: seq<Item>, max: nat)
    requires trace != []
    ensures var init, last := trace[..|trace| - 1], trace[|trace| - 1];
            CacheAfter(trace, max) ==
            if last.Did? && last.action.Save?
            then SnapshotCache.Stored(CacheAfter(init, max), last.action.key, last.action.entry, max)
            else CacheAfter(init, max)
  {
    hide SnapshotCache.Stored;
    assert Saves(trace)[..|Saves(trace[..|trace| - 1])|] == Saves(trace[..|trace| - 1]);
  }

  /** A lookup sees what the stores so far made of the cache. */
  lemma {:induction false} PeekSees(cfg: Config, trace: seq<Item>, g: State, j: nat)
    requires Reached(cfg, trace, g) && j < |trace| && trace[j].Did? && trace[j].action.Peek?
    ensures trace[j].action.cached == CacheLookup(CacheAfter(trace[..j], cfg.maxSnapshots), trace[j].action.key)
    decreases |trace|
  {
    hide CacheAfter;
    var init, last := trace[..|trace| - 1], trace[|trace| - 1];
    var p :| Reached(cfg, init, p) && Next(cfg, p, last, g);
    hide Reached, Next;
    if j < |init| {
      assert init[j] == trace[j] && init[..j] == trace[..j];
      PeekSees(cfg, init, p, j);
    } else {
      PeeksNow(cfg, init, p, last, g);
    }
  }

  lemma PeeksNow(cfg: Config, trace: seq<Item>, g: State, item: Item, g': State)
    requires Reached(cfg, trace, g) && Next(cfg, g, item, g') && item.Did? && item.action.Peek?
    ensures item.action.cached == CacheLookup(CacheAfter(trace, cfg.maxSnapshots), item.action.key)
  {
    CacheFollows(cfg, trace, g);
    PeekNext(cfg, g, item, g');
    hide Reached, Next, SnapshotCache.Run, Saves;
  }

  lemma PeekNext(cfg: Config, g: State, item: Item, g': State)
    requires Next(cfg, g, item, g') && item.Did? && item.action.Peek?
    ensures item.action.cached == CacheLookup(g.shared.cache, item.action.key)
  {
    hide CallStep, SnapshotCache.Stored, OperationStore.StoreStep;
  }

  /** Item i is call d saving this entry under the key. */
  ghost predicate SavedAt(trace: seq<Item>, i: nat, d: nat, key: SnapshotCache.Key, e: SnapshotCache.Entry) {
    i < |trace| && trace[i] == Did(d, Save(key, e))
  }

  ghost predicate SavedFrom(trace: seq<Item>, j: nat, key: SnapshotCache.Key, e: SnapshotCache.Entry) {
    exists i: nat, d: nat :: j <= i && SavedAt(trace, i, d, key, e)
  }

  lemma SavedGrows(trace: seq<Item>, j: nat, key: SnapshotCache.Key, e: SnapshotCache.Entry)
    requires trace != [] && SavedFrom(trace[..|trace| - 1], j, key, e)
    ensures SavedFrom(trace, j, key, e)
  {
    var i: nat, d: nat :| j <= i && SavedAt(trace[..|trace| - 1], i, d, key, e);
    assert SavedAt(trace, i, d, key, e);
  }

  /** A step either leaves the entry of a key in place or saves it. */
  lemma StepSaves(trace: seq<Item>, key: SnapshotCache.Key, max: nat)
    requires trace != [] && key in CacheAfter(trace, max).entries
    ensures var e := CacheAfter(trace, max).entries[key];
            || SavedFrom(trace, |trace| - 1, key, e)
            || CacheLookup(CacheAfter(trace[..|trace| - 1], max), key) == Some(e)
  {
    CacheAfterStep(trace, max);
    hide CacheAfter, SnapshotCache.Evicted;
    var init, last := trace[..|trace| - 1], trace[|trace| - 1];
    if last.Did? && last.action.Save? {
      var k, e := last.action.key, last.action.entry;
      SnapshotCache.EvictedKeeps(SnapshotCache.Inserted(CacheAfter(init, max), k, e), max, key);
      if k == key {
        assert SavedAt(trace, |trace| - 1, last.caller, key, e);
      }
    }
  }

  /** What is cached in the end was saved from item j on, or was cached there. */
  lemma {:induction false} SavedSince(trace: seq<Item>, j: nat, key: SnapshotCache.Key, max: nat)
    requires j <= |trace| && key in CacheAfter(trace, max).entries
    ensures var e := CacheAfter(trace, max).entries[key];
            CacheLookup(CacheAfter(trace[..j], max), key) == Some(e) || SavedFrom(trace, j, key, e)
    decreases |trace|
  {
    hide CacheAfter, SavedAt;
    if j == |trace| {
      assert trace[..j] == trace;
    } else {
      var n, e := |trace| - 1, CacheAfter(trace, max).entries[key];
      StepSaves(trace, key, max);
      if !SavedFrom(trace, n, key, e) {
        assert trace[..n][..j] == trace[..j];
        SavedSince(trace[..n], j, key, max);
        if SavedFrom(trace[..n], j, key, e) {
          SavedGrows(trace, j, key, e);
        }
      }
    }
  }

  /** A call that has saved has less than a save ahead of it. */
  lemma {:induction false} SavedLeaves(cfg: Config, trace: seq<Item>, g: State, i: nat)
    requires Reached(cfg, trace, g) && i < |trace| && trace[i].Did? && trace[i].action.Save?
    ensures trace[i].caller < |g.calls| && Remaining(g.calls[trace[i].caller]) < 3
    decreases |trace|
  {
    var init, last := trace[..|trace| - 1], trace[|trace| - 1];
    var p :| Reached(cfg, init, p) && Next(cfg, p, last, g);
    hide SharedStep, CallStep, Remaining;
    if i < |init| {
      assert init[i] == trace[i];
      SavedLeaves(cfg, init, p, i);
      if last.Did? {
        EveryStepCounts(cfg.chain, p.calls[last.caller], last.action, g.calls[last.caller]);
      }
    } else {
      SaveAhead(cfg.chain, p.calls[last.caller], last.action, g.calls[last.caller]);
      EveryStepCounts(cfg.chain, p.calls[last.caller], last.action, g.calls[last.caller]);
    }
  }

  lemma SaveAhead(chain: ChainId, c: Call, a: Action, c': Call)
    requires CallStep(chain, c, a, c') && a.Save?
    ensures Remaining(c) == 3 && c.Operation? && c.phase.Storing? && c.request.QueryRequest?
    ensures a.key == SnapshotCache.KeyOf(c.request.query) && a.entry.generatedAtMs == c.phase.nowMs
  {
  }

  /** Call c looked the key up, and later another call saved this entry. */
  ghost predicate Overtaken(trace: seq<Item>, c: nat, j: nat, i: nat, d: nat, key: SnapshotCache.Key,
                            e: SnapshotCache.Entry) {
    && j < i && d != c && SavedAt(trace, i, d, key, e)
    && trace[j].Did? && trace[j].caller == c && trace[j].action.Peek? && trace[j].action.key == key
  }

  /** A save puts the saver's entry under the key even if a newer one is cached.
      It lowers the generation time exactly when the saver's query reading is
      below the cached entry's, and only if that entry was saved by another call
      between the saver's lookup and its save. */
  lemma SaveLowers(cfg: Config, trace: seq<Item>, g: State, c: nat, key: SnapshotCache.Key, e: SnapshotCache.Entry,
                   g': State)
    requires Reached(cfg, trace, g) && Next(cfg, g, Did(c, Save(key, e)), g') && key in g.shared.cache.entries
    ensures AsOf(trace, c, e.generatedAtMs)
    ensures key in g'.shared.cache.entries && g'.shared.cache.entries[key] == e
    ensures g'.shared.cache.entries[key].generatedAtMs < g.shared.cache.entries[key].generatedAtMs <==>
            Reads(trace, c)[2] < g.shared.cache.entries[key].generatedAtMs
    ensures g'.shared.cache.entries[key].generatedAtMs < g.shared.cache.entries[key].generatedAtMs ==>
            exists j: nat, i: nat, d: nat :: Overtaken(trace, c, j, i, d, key, g.shared.cache.entries[key])
  {
    CacheAlways(cfg, trace, g);
    AlwaysSound(cfg, trace, g);
    CacheNext(cfg, g, Did(c, Save(key, e)), g');
    SaverReading(cfg, trace, g, c, key, e, g');
    hide Reached, Next, CallsSound, SavesFetched, SaveFetched, SnapshotCache.Consistent, Overtaken;
    Replaces(g.shared.cache, key, e, cfg.maxSnapshots);
    if e.generatedAtMs < g.shared.cache.entries[key].generatedAtMs {
      NewerWasSavedSince(cfg, trace, g, c, key, e, g');
    }
  }

  lemma NewerWasSavedSince(cfg: Config, trace: seq<Item>, g: State, c: nat, key: SnapshotCache.Key,
                           e: SnapshotCache.Entry, g': State)
    requires Reached(cfg, trace, g) && Next(cfg, g, Did(c, Save(key, e)), g') && key in g.shared.cache.entries
    requires e.generatedAtMs < g.shared.cache.entries[key].generatedAtMs
    ensures exists j: nat, i: nat, d: nat :: Overtaken(trace, c, j, i, d, key, g.shared.cache.entries[key])
  {
    var cached := g.shared.cache.entries[key];
    var q, seen := SaverMissed(cfg, trace, g, c, key, e, g');
    CacheFollows(cfg, trace, g);
    assert g.shared.cache == CacheAfter(trace, cfg.maxSnapshots);
    SaveLeft(cfg, g, c, key, e, g');
    hide Reached, Next, CacheAfter;
    var j: nat :| PeekedAt(trace, c, j, key, seen);
    PeekSees(cfg, trace, g, j);
    assert seen != Some(cached) by {
      MissedIsOlder(q, seen, e.generatedAtMs);
    }
    SavedSince(trace, j, key, cfg.maxSnapshots);
    var i: nat, d: nat :| j <= i && SavedAt(trace, i, d, key, cached);
    SavedLeaves(cfg, trace, g, i);
    assert Overtaken(trace, c, j, i, d, key, cached);
  }

  lemma SaveLeft(cfg: Config, g: State, c: nat, key: SnapshotCache.Key, e: SnapshotCache.Entry, g': State)
    requires Next(cfg, g, Did(c, Save(key, e)), g')
    ensures Remaining(g.calls[c]) == 3
  {
    hide SharedStep, CallStep;
    SaveAhead(cfg.chain, g.calls[c], Save(key, e), g'.calls[c]);
  }

  /** The lookup that sent the saver to the backend. */
  lemma SaverMissed(cfg: Config, trace: seq<Item>, g: State, c: nat, key: SnapshotCache.Key, e: SnapshotCache.Entry, g': State)
    returns (q: SnapshotRequest, seen: Option<SnapshotCache.Entry>)
    requires Reached(cfg, trace, g) && Next(cfg, g, Did(c, Save(key, e)), g')
    ensures HasPeeked(trace, c, key, seen) && SnapshotCache.CachedResponse(q, seen, e.generatedAtMs) == None
  {
    AlwaysSound(cfg, trace, g);
    hide Reached, SharedStep, SavesFetched, HasPeeked, HasFetched;
    SaveAhead(cfg.chain, g.calls[c], Save(key, e), g'.calls[c]);
    assert SoundPhase(cfg.chain, trace, c, g.calls[c].request, g.calls[c].phase);
    hide Next, CallsSound, CallStep;
    q := g.calls[c].request.query;
    seen :| HasPeeked(trace, c, key, seen) && SnapshotCache.CachedResponse(q, seen, e.generatedAtMs) == None;
  }

  /** An entry that was looked up and not served is older than the reading. */
  lemma MissedIsOlder(q: SnapshotRequest, seen: Option<SnapshotCache.Entry>, now: nat)
    requires SnapshotCache.CachedResponse(q, seen, now) == None
    ensures seen.Some? ==> seen.value.generatedAtMs < now
  {
  }

  lemma SaverReading(cfg: Config, trace: seq<Item>, g: State, c: nat, key: SnapshotCache.Key, e: SnapshotCache.Entry,
                     g': State)
    requires CallsSound(cfg.chain, trace, g.calls) && Next(cfg, g, Did(c, Save(key, e)), g')
    ensures AsOf(trace, c, e.generatedAtMs)
  {
    hide HasFetched, SharedStep;
    OnlyOperationsSave(cfg.chain, g.calls[c], Save(key, e), g'.calls[c]);
    assert SoundPhase(cfg.chain, trace, c, g.calls[c].request, g.calls[c].phase);
  }

  lemma Replaces(cache: SnapshotCache.Cache, key: SnapshotCache.Key, e: SnapshotCache.Entry, max: nat)
    requires key in cache.entries && |cache.entries| <= max
    ensures SnapshotCache.Stored(cache, key, e, max).entries == cache.entries[key := e]
  {
    assert cache.entries[key := e].Keys == cache.entries.Keys;
  }

  // ----- a run in which it does

  /** One step of call c, as an extension of the run. */
  lemma Take(cfg: Config, trace: seq<Item>, g: State, c: nat, a: Action, c': Call)
    returns (trace': seq<Item>, g': State)
    requires Reached(cfg, trace, g) && c < |g.calls| && CallStep(cfg.chain, g.calls[c], a, c') && !a.Look?
    requires a.Read? ==> g.shared.clock <= a.reading
    requires a.Peek? ==> a.cached == CacheLookup(g.shared.cache, a.key)
    ensures Reached(cfg, trace', g') && g'.calls == g.calls[c := c']
    ensures g'.shared.clock == if a.Read? then a.reading else g.shared.clock
    ensures g'.shared.cache ==
            if a.Save? then SnapshotCache.Stored(g.shared.cache, a.key, a.entry, cfg.maxSnapshots) else g.shared.cache
    ensures Next(cfg, g, Did(c, a), g')
  {
    hide Reached, CallStep, Next;
    g' := Moves(cfg, g, c, a, c');
    trace' := trace + [Did(c, a)];
    Extended(cfg, trace, g, Did(c, a), g');
    hide OperationStore.StoreStep, SnapshotCache.Stored;
  }

  lemma Extended(cfg: Config, trace: seq<Item>, g: State, item: Item, g': State)
    requires Reached(cfg, trace, g) && Next(cfg, g, item, g')
    ensures Reached(cfg, trace + [item], g')
  {
    hide Next;
    assert (trace + [item])[..|trace|] == trace;
  }

  /** One status write: read the clock, then write. */
  lemma Marks(cfg: Config, trace: seq<Item>, g: State, c: nat, r: Request, id: OperationId, mark: Mark, now: nat)
    returns (trace': seq<Item>, g': State)
    requires Reached(cfg, trace, g) && c < |g.calls| && g.calls[c] == Operation(r, Marking(id, mark)) && g.shared.clock <= now
    ensures Reached(cfg, trace', g') && g'.calls == g.calls[c := Operation(r, AfterWrite(id, mark, StatusOf(r, id, mark)))]
    ensures g'.shared.clock == now && g'.shared.cache == g.shared.cache
  {
    hide Reached, Next, AfterWrite, StatusOf;
    trace', g' := Take(cfg, trace, g, c, Read(now), Operation(r, Stamped(id, mark, now)));
    var status := StatusOf(r, id, mark);
    trace', g' := Take(cfg, trace', g', c, Write(status, now), Operation(r, AfterWrite(id, mark, status)));
  }

  /** A new query from the start to its cache lookup, all at one time. */
  lemma ToLooking(cfg: Config, trace: seq<Item>, g: State, c: nat, q: SnapshotRequest, id: OperationId, now: nat)
    returns (trace': seq<Item>, g': State)
    requires Reached(cfg, trace, g) && Admissible(cfg.chain, QueryRequest(q))
    requires c < |g.calls| && g.calls[c] == Operation(QueryRequest(q), Called) && g.shared.clock <= now
    ensures Reached(cfg, trace', g') && g'.calls == g.calls[c := Operation(QueryRequest(q), Looking(id, now))]
    ensures g'.shared.clock == now && g'.shared.cache == g.shared.cache
  {
    hide Reached, Next, CheckSnapshot, Admissible;
    var r := QueryRequest(q);
    CheckedAdmissible(cfg.chain, q);
    trace', g' := Take(cfg, trace, g, c, Draw(Success(id)), Operation(r, Marking(id, AsQueued)));
    trace', g' := Marks(cfg, trace', g', c, r, id, AsQueued, now);
    trace', g' := Marks(cfg, trace', g', c, r, id, AsRunning, now);
    trace', g' := Take(cfg, trace', g', c, Read(now), Operation(r, Looking(id, now)));
  }

  /** And on, past a missing entry and a successful fetch, to its save. */
  lemma ToStoring(cfg: Config, trace: seq<Item>, g: State, c: nat, q: SnapshotRequest, id: OperationId, now: nat,
                  backend: SnapshotFetch.Backend, s: Snapshot)
    returns (trace': seq<Item>, g': State)
    requires Reached(cfg, trace, g) && Admissible(cfg.chain, QueryRequest(q))
    requires c < |g.calls| && g.calls[c] == Operation(QueryRequest(q), Called) && g.shared.clock <= now
    requires SnapshotCache.KeyOf(q) !in g.shared.cache.entries
    requires SnapshotFetch.Fetched(backend, SnapshotCache.KeyOf(q), now) == Success(s)
    ensures Reached(cfg, trace', g') && g'.calls == g.calls[c := Operation(QueryRequest(q), Storing(id, now, s))]
    ensures g'.shared.clock == now && g'.shared.cache == g.shared.cache
  {
    hide Reached, Next, SnapshotFetch.Fetched, Admissible;
    var r, key := QueryRequest(q), SnapshotCache.KeyOf(q);
    trace', g' := ToLooking(cfg, trace, g, c, q, id, now);
    trace', g' := Take(cfg, trace', g', c, Peek(key, None), Operation(r, Fetching(id, now, None)));
    trace', g' := Take(cfg, trace', g', c, Fetch(backend), Operation(r, Storing(id, now, s)));
  }

  /** Two queries for one key fetch at t1 < t2, and the earlier fetch is saved
      last: from an entry generated at t2 the cache goes back to one of t1. */
  lemma OlderReplacesNewer(cfg: Config, q: SnapshotRequest, t1: nat, t2: nat,
                           b1: SnapshotFetch.Backend, s1: Snapshot, b2: SnapshotFetch.Backend, s2: Snapshot)
    returns (trace: seq<Item>, g: State, g': State)
    requires Admissible(cfg.chain, QueryRequest(q)) && cfg.maxSnapshots >= 1 && t1 < t2
    requires SnapshotFetch.Fetched(b1, SnapshotCache.KeyOf(q), t1) == Success(s1)
    requires SnapshotFetch.Fetched(b2, SnapshotCache.KeyOf(q), t2) == Success(s2)
    ensures var key := SnapshotCache.KeyOf(q);
            && Reached(cfg, trace, g) && Next(cfg, g, Did(0, Save(key, SnapshotCache.Entry(t1, s1))), g')
            && key in g.shared.cache.entries && g.shared.cache.entries[key] == SnapshotCache.Entry(t2, s2)
            && key in g'.shared.cache.entries && g'.shared.cache.entries[key] == SnapshotCache.Entry(t1, s1)
  {
    var r, key := QueryRequest(q), SnapshotCache.KeyOf(q);
    trace, g := TwoCalls(cfg, Operation(r, Called));
    hide Reached, Next, SnapshotFetch.Fetched, Admissible;
    trace, g := ToStoring(cfg, trace, g, 0, q, "snapshot-0", t1, b1, s1);
    trace, g := ToStoring(cfg, trace, g, 1, q, "snapshot-1", t2, b2, s2);
    trace, g, g' := SaveBoth(cfg, trace, g, q, t1, s1, t2, s2);
  }

  lemma TwoCalls(cfg: Config, call: Call) returns (trace: seq<Item>, g: State)
    requires Arriving(call)
    ensures Reached(cfg, trace, g) && g == State(START.shared, [call, call])
  {
    var one, two := State(START.shared, [call]), State(START.shared, [call, call]);
    assert Next(cfg, START, Arrive(call), one) && Next(cfg, one, Arrive(call), two);
    hide Next;
    Extended(cfg, [], START, Arrive(call), one);
    Extended(cfg, [] + [Arrive(call)], one, Arrive(call), two);
    trace, g := [] + [Arrive(call)] + [Arrive(call)], two;
  }

  /** Call 1 saves, then call 0. */
  lemma SaveBoth(cfg: Config, trace: seq<Item>, g: State, q: SnapshotRequest, t1: nat, s1: Snapshot, t2: nat,
                 s2: Snapshot)
    returns (trace1: seq<Item>, g1: State, g2: State)
    requires Reached(cfg, trace, g) && g.shared.cache == SnapshotCache.EMPTY && cfg.maxSnapshots >= 1
    requires g.calls == [Operation(QueryRequest(q), Storing("snapshot-0", t1, s1)), Operation(QueryRequest(q), Storing("snapshot-1", t2, s2))]
    ensures var key := SnapshotCache.KeyOf(q);
            && Reached(cfg, trace1, g1) && Next(cfg, g1, Did(0, Save(key, SnapshotCache.Entry(t1, s1))), g2)
            && key in g1.shared.cache.entries && g1.shared.cache.entries[key] == SnapshotCache.Entry(t2, s2)
            && key in g2.shared.cache.entries && g2.shared.cache.entries[key] == SnapshotCache.Entry(t1, s1)
  {
    var r, key := QueryRequest(q), SnapshotCache.KeyOf(q);
    var e1, e2 := SnapshotCache.Entry(t1, s1), SnapshotCache.Entry(t2, s2);
    hide Reached, Next, SnapshotCache.Stored;
    FirstStored(key, e2, cfg.maxSnapshots);
    trace1, g1 := Take(cfg, trace, g, 1, Save(key, e2), Operation(r, Complete("snapshot-1", s2)));
    Replaces(g1.shared.cache, key, e1, cfg.maxSnapshots);
    var trace2;
    trace2, g2 := Take(cfg, trace1, g1, 0, Save(key, e1), Operation(r, Complete("snapshot-0", s1)));
  }

  lemma FirstStored(key: SnapshotCache.Key, e: SnapshotCache.Entry, max: nat)
    requires max >= 1
    ensures SnapshotCache.Stored(SnapshotCache.EMPTY, key, e, max).entries == map[key := e]
  {
    assert |SnapshotCache.EMPTY.entries[key := e].Keys| == 1;
  }
}
