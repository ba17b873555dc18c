/** The shared snapshot cache: bounded first-in first-out, served under clamped
    freshness windows, with quantized timestamps on the way out. */
module SnapshotCache {
  import opened Outcomes
  import opened Domain
  import opened Clock

  const MAX_SNAPSHOT_TTL_MS: nat := 60 * 60 * 1000
  const MAX_SNAPSHOT_STALE_MS: nat := 24 * 60 * 60 * 1000
  const QUANTUM: nat := 5_000

  datatype Key = Key(chain: ChainId, address: FeltHex, block: BlockSelector, tokens: seq<TrackedToken>)
  datatype Entry = Entry(generatedAtMs: nat, snapshot: Snapshot)

  /** Mode and cache policy are not part of the key. */
  function KeyOf(r: SnapshotRequest): Key {
    Key(r.chain, r.address, r.block, r.tokens)
  }

  // ----- serving

  function FreshWindow(policy: CachePolicy): nat {
    Min(policy.ttlMs, MAX_SNAPSHOT_TTL_MS)
  }

  function MaxCacheAge(policy: CachePolicy): nat {
    SaturatingAdd(FreshWindow(policy), Min(policy.staleMs, MAX_SNAPSHOT_STALE_MS))
  }

  function QuantizeDown(v: nat): nat {
    v - v % QUANTUM
  }

  function QuantizeUp(v: nat): nat {
    if v % QUANTUM == 0 then v else SaturatingAdd(v, QUANTUM - v % QUANTUM)
  }

  function Metadata(status: CacheStatus, generatedAtMs: nat, nowMs: nat): CacheMetadata {
    CacheMetadata(status, QuantizeDown(generatedAtMs), SaturatingSub(QuantizeUp(nowMs), QuantizeDown(generatedAtMs)))
  }

  function ApplyMetadata(s: Snapshot, status: CacheStatus, generatedAtMs: nat, nowMs: nat): Snapshot {
    s.(cache := Metadata(status, generatedAtMs, nowMs))
  }

  function CachedResponse(r: SnapshotRequest, cached: Option<Entry>, nowMs: nat): Option<Snapshot> {
    match cached
    case None => None
    case Some(e) =>
      var age := SaturatingSub(nowMs, e.generatedAtMs);
      if age <= FreshWindow(r.policy) then Some(ApplyMetadata(e.snapshot, Hit, e.generatedAtMs, nowMs))
      else if age <= MaxCacheAge(r.policy) && r.mode.BackgroundView? then
        Some(ApplyMetadata(e.snapshot, Stale, e.generatedAtMs, nowMs))
      else None
  }

  function StaleFallback(r: SnapshotRequest, cached: Option<Entry>, nowMs: nat): Option<Snapshot> {
    match cached
    case None => None
    case Some(e) =>
      if SaturatingSub(nowMs, e.generatedAtMs) <= MaxCacheAge(r.policy) then
        Some(ApplyMetadata(e.snapshot, Stale, e.generatedAtMs, nowMs))
      else None
  }

  /** Requests share a cache entry exactly when chain, address, block and tokens
      agree. */
  lemma KeyIdentifies(r1: SnapshotRequest, r2: SnapshotRequest)
    ensures KeyOf(r1) == KeyOf(r2) <==>
            r1.chain == r2.chain && r1.address == r2.address && r1.block == r2.block && r1.tokens == r2.tokens
  {
  }

  /** When an entry is served, exactly: fresh up to the TTL, at most an hour;
      stale for the stale time longer, at most a day, to background views, and to
      any view as a fallback. */
  lemma ServesWhen(r: SnapshotRequest, e: Entry, now: nat)
    ensures var age := if now >= e.generatedAtMs then now - e.generatedAtMs else 0;
            var freshMs := if r.policy.ttlMs <= 3_600_000 then r.policy.ttlMs else 3_600_000;
            var staleMs := freshMs + if r.policy.staleMs <= 86_400_000 then r.policy.staleMs else 86_400_000;
            && CachedResponse(r, Some(e), now) == (
                 if age <= freshMs then Some(e.snapshot.(cache := Metadata(Hit, e.generatedAtMs, now)))
                 else if age <= staleMs && r.mode == BackgroundView then Some(e.snapshot.(cache := Metadata(Stale, e.generatedAtMs, now)))
                 else None)
            && StaleFallback(r, Some(e), now) == (
                 if age <= staleMs then Some(e.snapshot.(cache := Metadata(Stale, e.generatedAtMs, now))) else None)
            && CachedResponse(r, None, now) == None && StaleFallback(r, None, now) == None
  {
  }

  /** The exposed times: the generation time rounded down to five seconds, and
      the age from there to the reading rounded up. */
  lemma MetadataForm(status: CacheStatus, g: nat, now: nat)
    requires g <= now && now + QUANTUM <= U64_MAX
    ensures var m := Metadata(status, g, now);
            && m.status == status
            && m.generatedAtMs % 5_000 == 0 && m.generatedAtMs <= g < m.generatedAtMs + 5_000
            && (m.generatedAtMs + m.ageMs) % 5_000 == 0
            && now <= m.generatedAtMs + m.ageMs < now + 5_000
  {
  }

  /** No policy reaches past the server's windows. */
  lemma WindowsClamped(policy: CachePolicy)
    ensures FreshWindow(policy) <= MAX_SNAPSHOT_TTL_MS
    ensures FreshWindow(policy) <= MaxCacheAge(policy) <= MAX_SNAPSHOT_TTL_MS + MAX_SNAPSHOT_STALE_MS
  {
  }

  /** What is refused as fresh at one reading is refused at every later one,
      and likewise for stale service. */
  lemma OnceTooOld(r: SnapshotRequest, e: Entry, nowMs: nat, laterMs: nat)
    requires nowMs <= laterMs
    ensures var now, later := CachedResponse(r, Some(e), nowMs), CachedResponse(r, Some(e), laterMs);
            && (later.Some? && later.value.cache.status.Hit? ==> now.Some? && now.value.cache.status.Hit?)
            && (later.Some? ==> now.Some?)
            && (StaleFallback(r, Some(e), laterMs).Some? ==> StaleFallback(r, Some(e), nowMs).Some?)
  {
  }

  // ----- exposed metadata

  /** For one and the same status, two generation times give the same metadata
      at every time exactly when they lie in the same quantum. */
  lemma BlindWithinQuantum(status: CacheStatus, g1: nat, g2: nat)
    ensures (forall now: nat :: Metadata(status, g1, now) == Metadata(status, g2, now)) <==> g1 / QUANTUM == g2 / QUANTUM
  {
    assert QuantizeDown(g1) == QUANTUM * (g1 / QUANTUM) && QuantizeDown(g2) == QUANTUM * (g2 / QUANTUM);
    if g1 / QUANTUM != g2 / QUANTUM {
      assert Metadata(status, g1, 0) != Metadata(status, g2, 0);
    }
  }

  /** How an entry is served; it depends on the exact age. */
  datatype Band = FreshBand | StaleBand | NoBand

  function BandOf(r: SnapshotRequest, g: nat, now: nat): Band {
    var age := SaturatingSub(now, g);
    if age <= FreshWindow(r.policy) then FreshBand
    else if age <= MaxCacheAge(r.policy) && r.mode.BackgroundView? then StaleBand
    else NoBand
  }

  /** What one response tells of the generation time of an entry: the band it
      falls in, and, if it is served, its quantum. */
  lemma ResponseShows(r: SnapshotRequest, s: Snapshot, g1: nat, g2: nat, now: nat)
    ensures CachedResponse(r, Some(Entry(g1, s)), now) == CachedResponse(r, Some(Entry(g2, s)), now) <==>
            && BandOf(r, g1, now) == BandOf(r, g2, now)
            && (BandOf(r, g1, now).NoBand? || g1 / QUANTUM == g2 / QUANTUM)
  {
    assert QuantizeDown(g1) == QUANTUM * (g1 / QUANTUM) && QuantizeDown(g2) == QUANTUM * (g2 / QUANTUM);
  }

  /** Every admissible request for the key, at every reading, is answered alike. */
  ghost predicate AnsweredAlike(key: Key, s: Snapshot, g1: nat, g2: nat) {
    forall r: SnapshotRequest, now: nat | KeyOf(r) == key && r.policy.ttlMs > 0 && now <= U64_MAX ::
      CachedResponse(r, Some(Entry(g1, s)), now) == CachedResponse(r, Some(Entry(g2, s)), now)
  }

  /** So quantized timestamps do not hide generation times from a caller who
      chooses policy and time: the responses agree throughout exactly when the
      times are equal. */
  lemma AlikeOnlyIfEqual(key: Key, s: Snapshot, g1: nat, g2: nat)
    requires g1 < U64_MAX && g2 < U64_MAX
    ensures AnsweredAlike(key, s, g1, g2) <==> g1 == g2
  {
    if g1 != g2 {
      var r := SnapshotRequest(key.chain, key.address, key.tokens, key.block, ActiveView, CachePolicy(1, 0));
      var now := 1 + if g1 < g2 then g2 else g1;
      assert KeyOf(r) == key;
      ResponseShows(r, s, g1, g2, now);
      assert BandOf(r, g1, now) != BandOf(r, g2, now);
    }
  }

  /** Two times of one quantum told apart: one entry is stale, the other fresh. */
  lemma ToldApart(r: SnapshotRequest, s: Snapshot)
    requires r.mode.BackgroundView? && r.policy == CachePolicy(1, 1_000)
    ensures 5_000 / QUANTUM == 5_001 / QUANTUM
    ensures CachedResponse(r, Some(Entry(5_000, s)), 5_002) == Some(ApplyMetadata(s, Stale, 5_000, 5_002))
    ensures CachedResponse(r, Some(Entry(5_001, s)), 5_002) == Some(ApplyMetadata(s, Hit, 5_001, 5_002))
  {
  }

  /** The reported age never under-states the true one, and over-states it by
      less than two quanta. */
  lemma ReportedAge(status: CacheStatus, g: nat, now: nat)
    requires now <= U64_MAX
    ensures var age, reported := SaturatingSub(now, g), Metadata(status, g, now).ageMs;
            age <= reported <= age + 2 * QUANTUM - 2
  {
  }

  /** Within one quantum, as the code's comment has it, exactly when the
      reading falls on a quantum or no earlier in its quantum than the
      generation did in its own. */
  lemma OverstatedByOneQuantum(status: CacheStatus, g: nat, now: nat)
    requires g <= now && now + QUANTUM <= U64_MAX
    ensures Metadata(status, g, now).ageMs <= now - g + QUANTUM <==>
            now % QUANTUM == 0 || g % QUANTUM <= now % QUANTUM
  {
  }

  /** Generated at the end of a quantum and read just after the next began:
      almost two quanta too old. */
  lemma OverstatedByTwoQuanta()
    ensures Metadata(Hit, 4_999, 5_001).ageMs == 5_001 - 4_999 + 2 * QUANTUM - 2
  {
  }

  // ----- the bounded cache

  datatype Cache = Cache(entries: map<Key, Entry>, order: seq<Key>)

  ghost predicate NoDuplicates(s: seq<Key>) {
    forall i, j :: 0 <= i < j < |s| ==> s[i] != s[j]
  }

  /** The queue lists exactly the cached keys, each once. */
  ghost predicate Consistent(c: Cache) {
    && NoDuplicates(c.order)
    && (forall k :: k in c.entries <==> k in c.order)
  }

  function Keys(order: seq<Key>): set<Key> {
    set k | k in order
  }

  lemma {:induction false} OrderSize(order: seq<Key>)
    requires NoDuplicates(order)
    ensures |Keys(order)| == |order|
  {
    if order != [] {
      var init, last := order[..|order| - 1], order[|order| - 1];
      OrderSize(init);
      assert Keys(order) == Keys(init) + {last};
    }
  }

  lemma ConsistentSize(c: Cache)
    requires Consistent(c)
    ensures |c.entries| == |c.order|
  {
    OrderSize(c.order);
    assert c.entries.Keys == Keys(c.order);
  }

  function Inserted(c: Cache, key: Key, entry: Entry): Cache {
    Cache(c.entries[key := entry], if key in c.entries then c.order else c.order + [key])
  }

  function DropFront(c: Cache): Cache
    requires c.order != []
  {
    Cache(c.entries - {c.order[0]}, c.order[1..])
  }

  function Evicted(c: Cache, max: nat): Cache
    decreases |c.order|
  {
    if |c.entries| > max && c.order != [] then Evicted(DropFront(c), max) else c
  }

  /** Insert at the back if new, then drop from the front down to `max`. */
  function Stored(c: Cache, key: Key, entry: Entry, max: nat): Cache {
    Evicted(Inserted(c, key, entry), max)
  }

  lemma InsertedConsistent(c: Cache, key: Key, entry: Entry)
    requires Consistent(c)
    ensures Consistent(Inserted(c, key, entry))
  {
  }

  lemma DropFrontConsistent(c: Cache)
    requires Consistent(c) && c.order != []
    ensures Consistent(DropFront(c))
  {
    var d := DropFront(c);
    forall k ensures k in d.entries <==> k in d.order {
      if k in c.order && k != c.order[0] {
        var i :| 0 <= i < |c.order| && c.order[i] == k;
        assert d.order[i - 1] == k;
      }
    }
  }

  class SnapshotStore {
    var entries: map<Key, Entry>
    var order: seq<Key>

    ghost predicate Valid()
      reads this
    {
      Consistent(Cache(entries, order))
    }

    ghost function Model(): Cache
      reads this
    {
      Cache(entries, order)
    }

    constructor ()
      ensures Valid() && Model() == Cache(map[], [])
    {
      entries, order := map[], [];
    }

    /** `store_snapshot`.  The loop ends because the queue lists every cached
        key: while there is too much to keep there is something to drop. */
    method Store(key: Key, snapshot: Snapshot, maxEntries: nat, generatedAtMs: nat)
      requires Valid()
      modifies this
      ensures Valid() && Model() == Stored(old(Model()), key, Entry(generatedAtMs, snapshot), maxEntries)
      ensures |entries| <= maxEntries
    {
      InsertedConsistent(Model(), key, Entry(generatedAtMs, snapshot));
      if key !in entries {
        order := order + [key];
      }
      entries := entries[key := Entry(generatedAtMs, snapshot)];
      hide Consistent;
      while |entries| > maxEntries
        invariant Valid()
        invariant Evicted(Model(), maxEntries) == Stored(old(Model()), key, Entry(generatedAtMs, snapshot), maxEntries)
        decreases |order|
      {
        ConsistentSize(Model());
        if |order| > 0 {
          DropFrontConsistent(Model());
          var evicted := order[0];
          order := order[1..];
          entries := entries - {evicted};
        }
      }
    }
  }

  lemma StoredConsistent(c: Cache, key: Key, entry: Entry, max: nat)
    requires Consistent(c)
    ensures Consistent(Stored(c, key, entry, max)) && |Stored(c, key, entry, max).entries| <= max
  {
    InsertedConsistent(c, key, entry);
    EvictedConsistent(Inserted(c, key, entry), max);
  }

  lemma {:induction false} EvictedConsistent(c: Cache, max: nat)
    requires Consistent(c)
    ensures Consistent(Evicted(c, max)) && |Evicted(c, max).entries| <= max
    ensures Evicted(c, max).order == Last(c.order, max)
    decreases |c.order|
  {
    hide Consistent, Last;
    ConsistentSize(c);
    if |c.entries| > max {
      DropFrontConsistent(c);
      EvictedConsistent(DropFront(c), max);
      LastOfTail(c.order, max);
    } else {
      LastOfShort(c.order, max);
    }
  }

  /** Eviction changes no entry it keeps. */
  lemma {:induction false} EvictedKeeps(c: Cache, max: nat, k: Key)
    requires k in Evicted(c, max).entries
    ensures k in c.entries && Evicted(c, max).entries[k] == c.entries[k]
    decreases |c.order|
  {
    if |c.entries| > max && c.order != [] {
      EvictedKeeps(DropFront(c), max, k);
    }
  }

  /** The last `max` elements. */
  function Last<T>(s: seq<T>, max: nat): seq<T> {
    if |s| <= max then s else s[|s| - max..]
  }

  // ----- whole runs of stores

  function Run(c: Cache, stores: seq<(Key, Entry)>, max: nat): Cache {
    if stores == [] then c
    else
      var last := stores[|stores| - 1];
      Stored(Run(c, stores[..|stores| - 1], max), last.0, last.1, max)
  }

  /** The keys that were not cached when they were stored, in order. */
  function Arrivals(c: Cache, stores: seq<(Key, Entry)>, max: nat): seq<Key> {
    if stores == [] then []
    else
      var init, last := stores[..|stores| - 1], stores[|stores| - 1];
      Arrivals(c, init, max) + if last.0 in Run(c, init, max).entries then [] else [last.0]
  }

  function LastStored(stores: seq<(Key, Entry)>, key: Key): Option<Entry> {
    if stores == [] then None
    else if stores[|stores| - 1].0 == key then Some(stores[|stores| - 1].1)
    else LastStored(stores[..|stores| - 1], key)
  }

  const EMPTY: Cache := Cache(map[], [])

  /** Over every run from the empty cache the queue is exactly the last `max`
      arrivals, lists each cached key once, and the size stays bounded. */
  lemma {:induction false} FifoWindow(stores: seq<(Key, Entry)>, max: nat)
    ensures Consistent(Run(EMPTY, stores, max)) && |Run(EMPTY, stores, max).entries| <= max
    ensures Run(EMPTY, stores, max).order == Last(Arrivals(EMPTY, stores, max), max)
  {
    if stores != [] {
      var init, last := stores[..|stores| - 1], stores[|stores| - 1];
      FifoWindow(init, max);
      var c := Run(EMPTY, init, max);
      InsertedConsistent(c, last.0, last.1);
      hide Consistent, Evicted, Last;
      EvictedConsistent(Inserted(c, last.0, last.1), max);
      LastOfLast(Arrivals(EMPTY, init, max), last.0, max);
      assert Arrivals(EMPTY, init, max) + [] == Arrivals(EMPTY, init, max);
    }
  }

  /** And each cached key holds the entry stored under it last. */
  lemma {:induction false} HoldsLastStored(stores: seq<(Key, Entry)>, max: nat, k: Key)
    requires k in Run(EMPTY, stores, max).entries
    ensures LastStored(stores, k) == Some(Run(EMPTY, stores, max).entries[k])
  {
    if stores != [] {
      var init, last := stores[..|stores| - 1], stores[|stores| - 1];
      var c := Run(EMPTY, init, max);
      hide Evicted;
      EvictedKeeps(Inserted(c, last.0, last.1), max, k);
      if k != last.0 {
        HoldsLastStored(init, max, k);
      }
    }
  }

  lemma LastOfTail<T>(s: seq<T>, max: nat)
    requires |s| > max
    ensures Last(s[1..], max) == Last(s, max)
  {
  }

  lemma LastOfShort<T>(s: seq<T>, max: nat)
    requires |s| <= max
    ensures Last(s, max) == s
  {
  }

  lemma LastOfLast<T>(s: seq<T>, x: T, max: nat)
    ensures Last(Last(s, max) + [x], max) == Last(s + [x], max)
    ensures Last(Last(s, max), max) == Last(s, max)
  {
  }
}
