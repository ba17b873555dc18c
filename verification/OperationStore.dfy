/** Bounded store of operation states: entries age into Expired, and the store
    evicts expired entries first, then the least recently written. */
module OperationStore {
  import opened Outcomes
  import opened Domain
  import opened Clock

  datatype Entry = Entry(status: OperationStatus, updatedAtMs: nat, revision: nat)

  type Entries = map<OperationId, Entry>

  function Expire(s: OperationStatus): OperationStatus {
    s.(state := Expired)
  }

  /** What pruning at `now` does to an entry. */
  function Aged(e: Entry, ttl: nat, now: nat): Entry {
    if !e.status.state.Expired? && SaturatingSub(now, e.updatedAtMs) > ttl then e.(status := Expire(e.status)) else e
  }

  function Marked(entries: Entries, ttl: nat, now: nat): (m: Entries)
    ensures m.Keys == entries.Keys
  {
    map id | id in entries :: Aged(entries[id], ttl, now)
  }

  /** The eviction order: expired before active, then by revision. */
  predicate EvictedBefore(a: Entry, b: Entry) {
    if a.status.state.Expired? == b.status.state.Expired? then a.revision <= b.revision
    else a.status.state.Expired?
  }

  /** The outcome of pruning: entries age, none of the kept ones otherwise
      change, as many are kept as fit, and nothing is dropped that should
      outlast something kept. */
  ghost predicate Pruned(before: Entries, after: Entries, ttl: nat, max: nat, now: nat) {
    var m := Marked(before, ttl, now);
    && after.Keys <= m.Keys
    && (forall id :: id in after ==> after[id] == m[id])
    && |after| == Min(|before|, max)
    && KeepsLater(m, after)
  }

  lemma MarkedSize(before: Entries, ttl: nat, now: nat)
    ensures |Marked(before, ttl, now)| == |before|
  {
    assert |Marked(before, ttl, now).Keys| == |before.Keys|;
  }

  /** A store within its bound only ages. */
  lemma NothingPruned(before: Entries, ttl: nat, max: nat, now: nat)
    requires |before| <= max
    ensures Pruned(before, Marked(before, ttl, now), ttl, max, now)
  {
    MarkedSize(before, ttl, now);
  }

  lemma FirstPruned(before: Entries, removed: set<OperationId>, ttl: nat, max: nat, now: nat)
    requires var m := Marked(before, ttl, now); |m - removed| == max < |before| && KeepsLater(m, m - removed)
    ensures Pruned(before, Marked(before, ttl, now) - removed, ttl, max, now)
    ensures |Marked(before, ttl, now) - removed| <= max
  {
    hide KeepsLater;
  }

  ghost predicate KeepsLater(before: Entries, after: Entries) {
    forall id, kept :: id in before && id !in after && kept in after && kept in before ==>
      EvictedBefore(before[id], before[kept])
  }

  /** Sort key of one entry. */
  datatype Aging = Aging(id: OperationId, entry: Entry)

  ghost predicate Sorted(s: seq<Aging>) {
    forall i, j :: 0 <= i < j < |s| ==> EvictedBefore(s[i].entry, s[j].entry)
  }

  ghost predicate Lists(s: seq<Aging>, entries: Entries) {
    && (forall i :: 0 <= i < |s| ==> s[i].id in entries && entries[s[i].id] == s[i].entry)
    && (forall id :: id in entries ==> exists i :: 0 <= i < |s| && s[i].id == id)
    && (forall i, j :: 0 <= i < j < |s| ==> s[i].id != s[j].id)
  }

  // ----- the store as events change it

  /** A write of a status or a lookup, at the time handed to the store.  Times
      may run backwards: callers read the clock before they get the lock. */
  datatype StoreEvent = Put(status: OperationStatus, atMs: nat) | Look(id: OperationId, atMs: nat)

  datatype StoreState = StoreState(entries: Entries, nextRevision: nat)

  const EMPTY_STORE := StoreState(map[], 1)

  /** The entries an event hands to pruning. */
  function Written(s: StoreState, e: StoreEvent): Entries {
    match e
    case Look(_, _) => s.entries
    case Put(status, at) => s.entries[status.id := Entry(status, at, s.nextRevision)]
  }

  /** One event: a write takes the next revision, and both prune. */
  ghost predicate StoreStep(s: StoreState, e: StoreEvent, t: StoreState, ttl: nat, max: nat) {
    && t.nextRevision == (if e.Put? then SaturatingAdd(s.nextRevision, 1) else s.nextRevision)
    && Pruned(Written(s, e), t.entries, ttl, max, e.atMs)
  }

  class Store {
    const ttlMs: nat
    const maxEntries: nat
    var entries: Entries
    var nextRevision: nat

    ghost predicate Valid()
      reads this
    {
      |entries| <= maxEntries && nextRevision <= U64_MAX
    }

    ghost function Model(): StoreState
      reads this
    {
      StoreState(entries, nextRevision)
    }

    constructor (ttlMs: nat, maxEntries: nat)
      requires 0 < ttlMs && 0 < maxEntries
      ensures this.ttlMs == ttlMs && this.maxEntries == maxEntries
      ensures Valid() && Model() == EMPTY_STORE
    {
      this.ttlMs, this.maxEntries := ttlMs, maxEntries;
      entries, nextRevision := map[], 1;
    }

    method Get(id: OperationId, now: nat) returns (status: Option<OperationStatus>)
      requires Valid()
      modifies this
      ensures Valid() && StoreStep(old(Model()), Look(id, now), Model(), ttlMs, maxEntries)
      ensures status == if id in entries then Some(entries[id].status) else None
    {
      Prune(now);
      status := if id in entries then Some(entries[id].status) else None;
    }

    method Insert(status: OperationStatus, now: nat)
      requires Valid()
      modifies this
      ensures Valid() && StoreStep(old(Model()), Put(status, now), Model(), ttlMs, maxEntries)
    {
      var revision := nextRevision;
      nextRevision := SaturatingAdd(nextRevision, 1);
      entries := entries[status.id := Entry(status, now, revision)];
      Prune(now);
    }

    method Prune(now: nat)
      requires nextRevision <= U64_MAX
      modifies this`entries
      ensures Valid()
      ensures Pruned(old(entries), entries, ttlMs, maxEntries, now)
    {
      hide Pruned, Marked, Lists, Sorted, KeepsLater, Ids;
      AgeAll(now);
      MarkedSize(old(entries), ttlMs, now);
      if |entries| <= maxEntries {
        NothingPruned(old(entries), ttlMs, maxEntries, now);
        return;
      }
      var byAge := OldestFirst(entries);
      var removeCount := |entries| - maxEntries;
      TakenIsPruned(byAge, entries, removeCount);
      FirstPruned(old(entries), Ids(byAge[..removeCount]), ttlMs, maxEntries, now);
      RemoveFirst(byAge, removeCount);
    }

    /** Last loop of `prune`. */
    method RemoveFirst(byAge: seq<Aging>, removeCount: nat)
      requires removeCount <= |byAge|
      modifies this`entries
      ensures entries == old(entries) - Ids(byAge[..removeCount])
    {
      hide Ids;
      NoIds(byAge);
      for i := 0 to removeCount
        invariant entries == old(entries) - Ids(byAge[..i])
      {
        IdsSnoc(byAge, i);
        MinusTwice(old(entries), Ids(byAge[..i]), byAge[i].id);
        entries := entries - {byAge[i].id};
      }
    }

    /** First loop of `prune`: entries past the TTL become Expired in place. */
    method AgeAll(now: nat)
      modifies this`entries
      ensures entries == Marked(old(entries), ttlMs, now)
    {
      var todo := entries.Keys;
      while todo != {}
        invariant todo <= entries.Keys == old(entries).Keys
        invariant forall id :: id in entries ==>
                    entries[id] == if id in todo then old(entries)[id] else Aged(old(entries)[id], ttlMs, now)
        decreases todo
      {
        var id :| id in todo;
        var entry := entries[id];
        if !entry.status.state.Expired? && SaturatingSub(now, entry.updatedAtMs) > ttlMs {
          entries := entries[id := entry.(status := Expire(entry.status))];
        }
        todo := todo - {id};
      }
    }
  }

  function Ids(s: seq<Aging>): set<OperationId> {
    set i | 0 <= i < |s| :: s[i].id
  }

  lemma IdsSnoc(s: seq<Aging>, i: nat)
    requires i < |s|
    ensures Ids(s[..i + 1]) == Ids(s[..i]) + {s[i].id}
  {
    assert s[..i + 1] == s[..i] + [s[i]];
    forall id | id in Ids(s[..i]) ensures id in Ids(s[..i + 1]) {
      var k :| 0 <= k < i && s[..i][k].id == id;
      assert s[..i + 1][k].id == id;
    }
    assert s[..i + 1][i].id == s[i].id;
  }

  lemma MinusTwice(m: Entries, ids: set<OperationId>, id: OperationId)
    ensures m - ids - {id} == m - (ids + {id})
  {
  }

  lemma NoIds(s: seq<Aging>)
    ensures Ids(s[..0]) == {}
  {
  }

  lemma InPrefix(s: seq<Aging>, n: nat, j: nat)
    requires n <= |s| && j < |s|
    ensures j < n ==> s[j].id in Ids(s[..n])
  {
    if j < n {
      assert s[..n][j].id == s[j].id;
    }
  }

  /** All entries, in no particular order. */
  method ListEntries(entries: Entries) returns (s: seq<Aging>)
    ensures Lists(s, entries)
  {
    s := [];
    var todo := entries.Keys;
    while todo != {}
      invariant todo <= entries.Keys
      invariant forall i :: 0 <= i < |s| ==> s[i].id in entries && s[i].id !in todo && entries[s[i].id] == s[i].entry
      invariant forall id :: id in entries && id !in todo ==> exists i :: 0 <= i < |s| && s[i].id == id
      invariant forall i, j :: 0 <= i < j < |s| ==> s[i].id != s[j].id
      decreases todo
    {
      var id :| id in todo;
      ghost var before := s;
      s := s + [Aging(id, entries[id])];
      todo := todo - {id};
      forall other | other in entries && other !in todo ensures exists i :: 0 <= i < |s| && s[i].id == other {
        if other == id {
          assert s[|before|].id == id;
        } else {
          var i :| 0 <= i < |before| && before[i].id == other;
          assert s[i].id == other;
        }
      }
    }
  }

  /** Where `x` goes in a sorted list. */
  function Place(x: Aging, s: seq<Aging>): (p: nat)
    ensures p <= |s|
  {
    if s == [] || EvictedBefore(x.entry, s[0].entry) then 0 else 1 + Place(x, s[1..])
  }

  function Placed(x: Aging, s: seq<Aging>): seq<Aging> {
    s[..Place(x, s)] + [x] + s[Place(x, s)..]
  }

  /** Sorting by eviction order; ties may come out in any order. */
  function SortByAge(s: seq<Aging>): seq<Aging> {
    if s == [] then [] else Placed(s[0], SortByAge(s[1..]))
  }

  lemma {:induction false} PlaceSplits(x: Aging, s: seq<Aging>)
    requires Sorted(s)
    ensures forall i :: 0 <= i < Place(x, s) ==> EvictedBefore(s[i].entry, x.entry)
    ensures forall i :: Place(x, s) <= i < |s| ==> EvictedBefore(x.entry, s[i].entry)
  {
    if s != [] && !EvictedBefore(x.entry, s[0].entry) {
      PlaceSplits(x, s[1..]);
    }
  }

  lemma PlacedSorted(x: Aging, s: seq<Aging>)
    requires Sorted(s)
    ensures Sorted(Placed(x, s))
  {
    PlaceSplits(x, s);
    hide EvictedBefore, Place;
  }

  lemma PlacedPermutes(x: Aging, s: seq<Aging>)
    ensures multiset(Placed(x, s)) == multiset(s) + multiset{x}
  {
    hide Place;
    assert s == s[..Place(x, s)] + s[Place(x, s)..];
  }

  lemma {:induction false} SortSorts(s: seq<Aging>)
    ensures Sorted(SortByAge(s)) && multiset(SortByAge(s)) == multiset(s)
  {
    if s != [] {
      SortSorts(s[1..]);
      hide Placed, Sorted;
      PlacedSorted(s[0], SortByAge(s[1..]));
      PlacedPermutes(s[0], SortByAge(s[1..]));
      assert s == [s[0]] + s[1..];
    }
  }

  method OldestFirst(entries: Entries) returns (s: seq<Aging>)
    ensures Lists(s, entries) && Sorted(s)
  {
    hide Lists, Sorted;
    s := ListEntries(entries);
    SortKeepsList(s, entries);
    SortSorts(s);
    s := SortByAge(s);
  }

  lemma {:induction false} SortKeepsList(s: seq<Aging>, entries: Entries)
    requires Lists(s, entries)
    ensures Lists(SortByAge(s), entries)
  {
    var r := SortByAge(s);
    SortSorts(s);
    hide SortByAge, Sorted;
    forall i | 0 <= i < |r| ensures r[i].id in entries && entries[r[i].id] == r[i].entry {
      assert r[i] in multiset(r);
      assert r[i] in s;
    }
    forall id | id in entries ensures exists i :: 0 <= i < |r| && r[i].id == id {
      var i :| 0 <= i < |s| && s[i].id == id;
      assert s[i] in multiset(r);
      var k :| 0 <= k < |r| && r[k] == s[i];
    }
    SortKeepsDistinct(s, entries);
  }

  lemma SortKeepsDistinct(s: seq<Aging>, entries: Entries)
    requires Lists(s, entries)
    ensures var r := SortByAge(s); forall i, j :: 0 <= i < j < |r| ==> r[i].id != r[j].id
  {
    var r := SortByAge(s);
    SortSorts(s);
    hide SortByAge, Sorted;
    forall i, j | 0 <= i < j < |r| ensures r[i].id != r[j].id {
      if r[i].id == r[j].id {
        assert r[i] in multiset(s) && r[j] in multiset(s);
        TwiceInMultiset(r, i, j);
        OnceInMultiset(s, r[i]);
      }
    }
  }

  lemma TwiceInMultiset(r: seq<Aging>, i: nat, j: nat)
    requires i < j < |r| && r[i] == r[j]
    ensures multiset(r)[r[i]] >= 2
  {
    assert r == r[..j] + [r[j]] + r[j + 1..];
    assert r[i] in r[..j];
  }

  lemma {:induction false} OnceInMultiset(s: seq<Aging>, x: Aging)
    requires forall i, j :: 0 <= i < j < |s| ==> s[i].id != s[j].id
    ensures multiset(s)[x] <= 1
  {
    if s != [] {
      assert s == [s[0]] + s[1..];
      OnceInMultiset(s[1..], x);
    }
  }

  lemma ListSize(s: seq<Aging>, entries: Entries)
    requires Lists(s, entries)
    ensures |s| == |entries|
  {
    IdsSize(s);
    assert Ids(s) == entries.Keys;
  }

  lemma {:induction false} IdsSize(s: seq<Aging>)
    requires forall i, j :: 0 <= i < j < |s| ==> s[i].id != s[j].id
    ensures |Ids(s)| == |s|
  {
    if s != [] {
      var n := |s| - 1;
      IdsSize(s[..n]);
      assert s[..n + 1] == s;
      IdsSnoc(s, n);
    }
  }

  /** Dropping a sorted prefix drops nothing that should outlast what stays. */
  lemma TakenIsPruned(s: seq<Aging>, m: Entries, n: nat)
    requires Lists(s, m) && Sorted(s) && n <= |m|
    ensures |s| == |m| && |m - Ids(s[..n])| == |m| - n && KeepsLater(m, m - Ids(s[..n]))
  {
    ListSize(s, m);
    var after := m - Ids(s[..n]);
    hide Sorted, Lists;
    forall id, kept | id in m && id !in after && kept in after ensures EvictedBefore(m[id], m[kept]) {
      KeptIsLater(s, m, n, id, kept);
    }
    PrefixIds(s, m, n);
    assert after.Keys == m.Keys - Ids(s[..n]);
  }

  lemma PrefixIds(s: seq<Aging>, m: Entries, n: nat)
    requires Lists(s, m) && n <= |s|
    ensures Ids(s[..n]) <= m.Keys && |Ids(s[..n])| == n
  {
    IdsSize(s[..n]);
  }

  lemma KeptIsLater(s: seq<Aging>, m: Entries, n: nat, id: OperationId, kept: OperationId)
    requires Lists(s, m) && Sorted(s) && n <= |s|
    requires id in m && kept in m && id in Ids(s[..n]) && kept !in Ids(s[..n])
    ensures EvictedBefore(m[id], m[kept])
  {
    var i :| 0 <= i < |s[..n]| && s[..n][i].id == id;
    var j :| 0 <= j < |s| && s[j].id == kept;
    InPrefix(s, n, j);
    assert s[i].id == id;
  }
}
