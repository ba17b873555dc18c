/** What every run of the operation store makes of its history of writes. */
module StoreHistory {
  import opened Domain
  import opened Clock
  import opened OperationStore

  /** Some run over `events` ends in `t`. */
  ghost predicate Reaches(events: seq<StoreEvent>, t: StoreState, ttl: nat, max: nat) {
    if events == [] then t == EMPTY_STORE
    else
      var init, last := events[..|events| - 1], events[|events| - 1];
      exists s :: Reaches(init, s, ttl, max) && StoreStep(s, last, t, ttl, max)
  }

  lemma Start(ttl: nat, max: nat)
    ensures Reaches([], EMPTY_STORE, ttl, max)
  {
  }

  lemma Extend(events: seq<StoreEvent>, s: StoreState, e: StoreEvent, t: StoreState, ttl: nat, max: nat)
    requires Reaches(events, s, ttl, max) && StoreStep(s, e, t, ttl, max)
    ensures Reaches(events + [e], t, ttl, max)
  {
    assert (events + [e])[..|events|] == events;
  }

  // ----- the history of an id

  /** Position of the last write of `id`, or -1. */
  function LastPut(events: seq<StoreEvent>, id: OperationId): (i: int)
    ensures -1 <= i < |events|
    ensures i >= 0 ==> events[i].Put? && events[i].status.id == id
    ensures forall j :: i < j < |events| ==> !(events[j].Put? && events[j].status.id == id)
  {
    if events == [] then -1
    else
      var n := |events| - 1;
      if events[n].Put? && events[n].status.id == id then n else LastPut(events[..n], id)
  }

  function Puts(events: seq<StoreEvent>): nat {
    if events == [] then 0
    else Puts(events[..|events| - 1]) + if events[|events| - 1].Put? then 1 else 0
  }

  /** Some event since the write came more than `ttl` after it. */
  ghost predicate Overdue(events: seq<StoreEvent>, i: nat, ttl: nat)
    requires i < |events|
  {
    exists j :: i <= j < |events| && events[j].atMs - events[i].atMs > ttl
  }

  /** The entry a write leaves behind, seen at the end of the history. */
  ghost function Recorded(events: seq<StoreEvent>, i: nat, ttl: nat): Entry
    requires i < |events| && events[i].Put?
  {
    var status := events[i].status;
    Entry(if Overdue(events, i, ttl) then Expire(status) else status, events[i].atMs, Min(Puts(events[..i]) + 1, U64_MAX))
  }

  /** The ids written after position `i`. */
  function Newer(events: seq<StoreEvent>, i: int): set<OperationId>
    requires -1 <= i
  {
    set j | i < j < |events| && events[j].Put? :: events[j].status.id
  }

  // ----- one more event

  lemma RecordedAges(events: seq<StoreEvent>, i: nat, ttl: nat)
    requires |events| > 0 && i < |events| - 1 && events[i].Put?
    ensures Recorded(events, i, ttl) ==
            Aged(Recorded(events[..|events| - 1], i, ttl), ttl, events[|events| - 1].atMs)
  {
    var n := |events| - 1;
    var init := events[..n];
    assert init[..i] == events[..i];
    assert Overdue(events, i, ttl) <==> Overdue(init, i, ttl) || events[n].atMs - events[i].atMs > ttl by {
      OverdueGrows(events, i, ttl);
    }
    hide Overdue, Puts;
  }

  lemma OverdueGrows(events: seq<StoreEvent>, i: nat, ttl: nat)
    requires |events| > 0 && i < |events| - 1
    ensures Overdue(events, i, ttl) <==>
            Overdue(events[..|events| - 1], i, ttl) || events[|events| - 1].atMs - events[i].atMs > ttl
  {
    var init := events[..|events| - 1];
    assert forall j :: i <= j < |init| ==> init[j] == events[j];
  }

  lemma RecordedFresh(events: seq<StoreEvent>, ttl: nat)
    requires |events| > 0 && events[|events| - 1].Put?
    ensures var e := events[|events| - 1];
            Recorded(events, |events| - 1, ttl) ==
            Entry(e.status, e.atMs, Min(Puts(events[..|events| - 1]) + 1, U64_MAX))
  {
  }

  // ----- every retained entry is its last write, aged

  ghost predicate Tracks(events: seq<StoreEvent>, t: StoreState, ttl: nat) {
    && t.nextRevision == Min(Puts(events) + 1, U64_MAX)
    && forall id :: id in t.entries ==>
         LastPut(events, id) >= 0 && t.entries[id] == Recorded(events, LastPut(events, id), ttl)
  }

  /** A retained entry is the status last written under its id, stamped with
      that write's time and rank.  It reads Expired exactly when it was written
      so or some event since came more than the TTL after the write.  The size
      stays bounded. */
  lemma {:induction false} ReadsHistory(events: seq<StoreEvent>, t: StoreState, ttl: nat, max: nat)
    requires Reaches(events, t, ttl, max)
    ensures Tracks(events, t, ttl) && |t.entries| <= max
  {
    if events != [] {
      var n := |events| - 1;
      var init, e := events[..n], events[n];
      var s :| Reaches(init, s, ttl, max) && StoreStep(s, e, t, ttl, max);
      ReadsHistory(init, s, ttl, max);
      forall id | id in t.entries
        ensures LastPut(events, id) >= 0 && t.entries[id] == Recorded(events, LastPut(events, id), ttl)
      {
        StepTracks(events, s, t, ttl, max, id);
      }
    }
  }

  /** What pruning compares and keeps are the recorded entries. */
  lemma MarkedIsRecorded(events: seq<StoreEvent>, s: StoreState, ttl: nat, id: OperationId)
    requires 0 < |events| && Tracks(events[..|events| - 1], s, ttl)
    requires id in Written(s, events[|events| - 1])
    ensures LastPut(events, id) >= 0
    ensures Marked(Written(s, events[|events| - 1]), ttl, events[|events| - 1].atMs)[id] ==
            Recorded(events, LastPut(events, id), ttl)
  {
    hide Overdue, Puts;
    var n := |events| - 1;
    if events[n].Put? && events[n].status.id == id {
      RecordedFresh(events, ttl);
    } else {
      RecordedAges(events, LastPut(events[..n], id), ttl);
    }
  }

  lemma StepTracks(events: seq<StoreEvent>, s: StoreState, t: StoreState, ttl: nat, max: nat, id: OperationId)
    requires |events| > 0 && Tracks(events[..|events| - 1], s, ttl)
    requires StoreStep(s, events[|events| - 1], t, ttl, max) && id in t.entries
    ensures LastPut(events, id) >= 0 && t.entries[id] == Recorded(events, LastPut(events, id), ttl)
  {
    hide Recorded, KeepsLater, Tracks, Marked;
    MarkedIsRecorded(events, s, ttl, id);
  }

  /** With times that never run backwards the last event alone decides. */
  lemma LazyExpiry(events: seq<StoreEvent>, i: nat, ttl: nat)
    requires i < |events| && Ordered(events)
    ensures Overdue(events, i, ttl) <==> events[|events| - 1].atMs - events[i].atMs > ttl
  {
    assert forall j :: i <= j < |events| ==> events[j].atMs <= events[|events| - 1].atMs;
  }

  ghost predicate Ordered(events: seq<StoreEvent>) {
    forall i, j :: 0 <= i < j < |events| ==> events[i].atMs <= events[j].atMs
  }

  /** With times that do, an entry can read Expired within its TTL: here at its
      own write time, after a lookup stamped later. */
  lemma ExpiresEarly(a: OperationStatus, ttl: nat) returns (t: StoreState)
    requires !a.state.Expired?
    ensures Reaches([Put(a, 0), Look(a.id, ttl + 1), Look(a.id, 0)], t, ttl, 1)
    ensures a.id in t.entries && t.entries[a.id].status == Expire(a)
  {
    var put, late, back := Put(a, 0), Look(a.id, ttl + 1), Look(a.id, 0);
    var active, gone := Entry(a, 0, 1), Entry(Expire(a), 0, 1);
    var one, two := StoreState(map[a.id := active], 2), StoreState(map[a.id := gone], 2);
    Start(ttl, 1);
    Alone(EMPTY_STORE, put, a.id, active, 2, ttl);
    Alone(one, late, a.id, active, 2, ttl);
    Alone(two, back, a.id, gone, 2, ttl);
    ThreeSteps(put, late, back, one, two, ttl);
    t := two;
  }

  lemma ThreeSteps(a: StoreEvent, b: StoreEvent, c: StoreEvent, one: StoreState, two: StoreState, ttl: nat)
    requires StoreStep(EMPTY_STORE, a, one, ttl, 1) && StoreStep(one, b, two, ttl, 1) && StoreStep(two, c, two, ttl, 1)
    ensures Reaches([a, b, c], two, ttl, 1)
  {
    hide StoreStep;
    Start(ttl, 1);
    hide Reaches;
    assert [] + [a] == [a] && [a] + [b] == [a, b] && [a, b] + [c] == [a, b, c];
    Extend([], EMPTY_STORE, a, one, ttl, 1);
    Extend([a], one, b, two, ttl, 1);
    Extend([a, b], two, c, two, ttl, 1);
  }

  lemma Alone(s: StoreState, e: StoreEvent, id: OperationId, entry: Entry, revision: nat, ttl: nat)
    requires Written(s, e) == map[id := entry]
    requires revision == if e.Put? then SaturatingAdd(s.nextRevision, 1) else s.nextRevision
    ensures StoreStep(s, e, StoreState(map[id := Aged(entry, ttl, e.atMs)], revision), ttl, 1)
  {
    hide Pruned, Aged;
    var before: Entries := map[id := entry];
    NothingPruned(before, ttl, 1, e.atMs);
    assert Marked(before, ttl, e.atMs) == map[id := Aged(entry, ttl, e.atMs)];
  }

  // ----- which ids are retained

  /** Nothing is dropped unless the store ends up full. */
  lemma DroppedWhenFull(before: Entries, after: Entries, ttl: nat, max: nat, now: nat, id: OperationId)
    requires Pruned(before, after, ttl, max, now) && id in before && id !in after
    ensures |after| == max
  {
    if |before| <= max {
      SameSize(after.Keys, before.Keys);
    }
  }

  lemma SameSize(a: set<OperationId>, b: set<OperationId>)
    requires a <= b && |a| == |b|
    ensures a == b
  {
    assert |b - a| == 0;
  }

  lemma Subset(a: set<OperationId>, b: set<OperationId>)
    requires a <= b
    ensures |a| <= |b|
  {
    assert |b| == |a| + |b - a|;
  }

  /** Ranks follow the order of the writes. */
  lemma {:induction false} PutsGrow(events: seq<StoreEvent>, i: nat, j: nat)
    requires i < j <= |events| && events[i].Put?
    ensures Puts(events[..i]) < Puts(events[..j])
    decreases j
  {
    assert events[..j][..j - 1] == events[..j - 1];
    if i < j - 1 {
      PutsGrow(events, i, j - 1);
    }
  }

  lemma {:induction false} PutsBounded(events: seq<StoreEvent>)
    ensures Puts(events) <= |events|
  {
    if events != [] {
      PutsBounded(events[..|events| - 1]);
    }
  }

  /** An unsaturated rank that is no lower belongs to a write that is no earlier. */
  lemma RankOrder(events: seq<StoreEvent>, i: nat, j: nat, ttl: nat)
    requires |events| < U64_MAX && i < |events| && j < |events| && events[i].Put? && events[j].Put?
    requires Recorded(events, i, ttl).revision <= Recorded(events, j, ttl).revision
    ensures i <= j
  {
    PutsBounded(events[..i]);
    PutsBounded(events[..j]);
    if j < i {
      PutsGrow(events, j, i);
    }
  }

  lemma LaterIsNewer(events: seq<StoreEvent>, i: nat, id: OperationId)
    requires i < LastPut(events, id)
    ensures id in Newer(events, i)
  {
    var j := LastPut(events, id);
    assert events[j].Put? && events[j].status.id == id;
  }

  lemma NewerIsLater(events: seq<StoreEvent>, i: int, id: OperationId)
    requires -1 <= i && id in Newer(events, i)
    ensures i < LastPut(events, id)
  {
    var j :| i < j < |events| && events[j].Put? && events[j].status.id == id;
  }

  lemma DroppedOutranked(events: seq<StoreEvent>, s: StoreState, t: StoreState, ttl: nat, max: nat, id: OperationId,
                         kept: OperationId)
    requires 0 < |events| && Tracks(events[..|events| - 1], s, ttl) && Tracks(events, t, ttl)
    requires StoreStep(s, events[|events| - 1], t, ttl, max)
    requires id in Written(s, events[|events| - 1]) && id !in t.entries && kept in t.entries
    ensures LastPut(events, id) >= 0 && LastPut(events, kept) >= 0
    ensures EvictedBefore(Recorded(events, LastPut(events, id), ttl), Recorded(events, LastPut(events, kept), ttl))
  {
    var e := events[|events| - 1];
    MarkedIsRecorded(events, s, ttl, id);
    assert LastPut(events, kept) >= 0 && t.entries[kept] == Recorded(events, LastPut(events, kept), ttl);
    hide Tracks, Recorded, Marked, Written, EvictedBefore;
    DroppedBefore(Written(s, e), t.entries, ttl, max, e.atMs, id, kept);
  }

  /** Every id dropped unexpired has made way for `max` more recently written ones. */
  lemma DroppedActive(events: seq<StoreEvent>, s: StoreState, t: StoreState, ttl: nat, max: nat, id: OperationId)
    requires 0 < |events| < U64_MAX && Tracks(events[..|events| - 1], s, ttl) && Tracks(events, t, ttl)
    requires StoreStep(s, events[|events| - 1], t, ttl, max)
    requires id in Written(s, events[|events| - 1]) && id !in t.entries
    requires LastPut(events, id) >= 0
    requires !Recorded(events, LastPut(events, id), ttl).status.state.Expired?
    ensures max <= |Newer(events, LastPut(events, id))|
  {
    var e := events[|events| - 1];
    hide Recorded, Newer, Marked, Written, Tracks;
    DroppedWhenFull(Written(s, e), t.entries, ttl, max, e.atMs, id);
    hide StoreStep, Pruned, EvictedBefore;
    forall kept | kept in t.entries ensures kept in Newer(events, LastPut(events, id)) {
      DroppedOutranked(events, s, t, ttl, max, id, kept);
      Outranked(events, ttl, id, kept);
    }
    Subset(t.entries.Keys, Newer(events, LastPut(events, id)));
  }

  lemma Outranked(events: seq<StoreEvent>, ttl: nat, id: OperationId, kept: OperationId)
    requires |events| < U64_MAX && id != kept && LastPut(events, id) >= 0 && LastPut(events, kept) >= 0
    requires EvictedBefore(Recorded(events, LastPut(events, id), ttl), Recorded(events, LastPut(events, kept), ttl))
    requires !Recorded(events, LastPut(events, id), ttl).status.state.Expired?
    ensures kept in Newer(events, LastPut(events, id))
  {
    hide Newer, Recorded;
    RankOrder(events, LastPut(events, id), LastPut(events, kept), ttl);
    LaterIsNewer(events, LastPut(events, id), kept);
  }

  lemma DroppedBefore(before: Entries, after: Entries, ttl: nat, max: nat, now: nat, id: OperationId, kept: OperationId)
    requires Pruned(before, after, ttl, max, now) && id in before && id !in after && kept in after
    ensures EvictedBefore(Marked(before, ttl, now)[id], after[kept])
  {
  }

  /** An entry that is not expired stays until `max` other ids have been
      written since: over every run, whatever its times. */
  lemma {:induction false} Retained(events: seq<StoreEvent>, t: StoreState, ttl: nat, max: nat, id: OperationId)
    requires |events| < U64_MAX && Reaches(events, t, ttl, max)
    requires LastPut(events, id) >= 0 && !Recorded(events, LastPut(events, id), ttl).status.state.Expired?
    requires |Newer(events, LastPut(events, id))| < max
    ensures id in t.entries
  {
    var n, i := |events| - 1, LastPut(events, id);
    var init, e := events[..n], events[n];
    var s :| Reaches(init, s, ttl, max) && StoreStep(s, e, t, ttl, max);
    ReadsHistory(events, t, ttl, max);
    ReadsHistory(init, s, ttl, max);
    hide Reaches, StoreStep, Tracks, Overdue, Newer, Puts, Pruned;
    if i < n {
      RecordedAges(events, i, ttl);
      NewerGrows(events, i);
      Retained(init, s, ttl, max, id);
    }
    if id !in t.entries {
      DroppedActive(events, s, t, ttl, max, id);
    }
  }

  lemma NewerGrows(events: seq<StoreEvent>, i: int)
    requires |events| > 0 && -1 <= i
    ensures Newer(events[..|events| - 1], i) <= Newer(events, i)
    ensures |Newer(events[..|events| - 1], i)| <= |Newer(events, i)|
  {
    var init := events[..|events| - 1];
    forall id | id in Newer(init, i) ensures id in Newer(events, i) {
      var j :| i < j < |init| && init[j].Put? && init[j].status.id == id;
      assert events[j].status.id == id;
    }
    Subset(Newer(init, i), Newer(events, i));
  }

  // ----- exactly which, when times do not run backwards

  ghost predicate NeverPutExpired(events: seq<StoreEvent>) {
    forall j :: 0 <= j < |events| && events[j].Put? ==> !events[j].status.state.Expired?
  }

  /** Then an expired entry was written before every active one, so dropping
      expired entries first is dropping the earliest written. */
  lemma OutrankedInOrder(events: seq<StoreEvent>, ttl: nat, id: OperationId, kept: OperationId)
    requires |events| < U64_MAX && id != kept && LastPut(events, id) >= 0 && LastPut(events, kept) >= 0
    requires Ordered(events) && NeverPutExpired(events)
    requires EvictedBefore(Recorded(events, LastPut(events, id), ttl), Recorded(events, LastPut(events, kept), ttl))
    ensures kept in Newer(events, LastPut(events, id))
  {
    hide Newer, Puts;
    var i, k := LastPut(events, id), LastPut(events, kept);
    if Recorded(events, i, ttl).status.state.Expired? && !Recorded(events, k, ttl).status.state.Expired? {
      LazyExpiry(events, i, ttl);
      LazyExpiry(events, k, ttl);
    } else {
      RankOrder(events, i, k, ttl);
    }
    LaterIsNewer(events, i, kept);
  }

  /** The last step of such a run, with what is known of the state before it. */
  ghost predicate OrderedStep(events: seq<StoreEvent>, s: StoreState, t: StoreState, ttl: nat, max: nat) {
    && 0 < |events| < U64_MAX && Ordered(events) && NeverPutExpired(events)
    && Tracks(events[..|events| - 1], s, ttl) && Tracks(events, t, ttl)
    && StoreStep(s, events[|events| - 1], t, ttl, max)
  }

  lemma DroppedInOrder(events: seq<StoreEvent>, s: StoreState, t: StoreState, ttl: nat, max: nat, id: OperationId)
    requires OrderedStep(events, s, t, ttl, max)
    requires id in Written(s, events[|events| - 1]) && id !in t.entries
    ensures LastPut(events, id) >= 0 && t.entries.Keys <= Newer(events, LastPut(events, id))
    ensures max <= |Newer(events, LastPut(events, id))|
  {
    var e := events[|events| - 1];
    MarkedIsRecorded(events, s, ttl, id);
    hide Recorded, Newer, Marked, Written, Tracks, Ordered, NeverPutExpired;
    DroppedWhenFull(Written(s, e), t.entries, ttl, max, e.atMs, id);
    hide StoreStep, Pruned, EvictedBefore;
    forall kept | kept in t.entries ensures kept in Newer(events, LastPut(events, id)) {
      DroppedOutranked(events, s, t, ttl, max, id, kept);
      OutrankedInOrder(events, ttl, id, kept);
    }
    Subset(t.entries.Keys, Newer(events, LastPut(events, id)));
  }

  /** Fewer than `max` ids were written since `id` last was. */
  predicate Recent(events: seq<StoreEvent>, id: OperationId, max: nat) {
    LastPut(events, id) >= 0 && |Newer(events, LastPut(events, id))| < max
  }

  ghost predicate HoldsRecent(events: seq<StoreEvent>, t: StoreState, max: nat) {
    forall id :: id in t.entries <==> Recent(events, id, max)
  }

  /** Over every run whose times do not run backwards and that never writes
      Expired, the store holds exactly the `max` most recently written ids. */
  lemma {:induction false} MostRecentlyWritten(events: seq<StoreEvent>, t: StoreState, ttl: nat, max: nat)
    requires |events| < U64_MAX && Reaches(events, t, ttl, max) && Ordered(events) && NeverPutExpired(events)
    ensures HoldsRecent(events, t, max)
  {
    if events == [] {
    } else {
      var init, e := events[..|events| - 1], events[|events| - 1];
      var s :| Reaches(init, s, ttl, max) && StoreStep(s, e, t, ttl, max);
      PrefixOrdered(events);
      hide Reaches, StoreStep, Recent, Ordered, NeverPutExpired, Tracks;
      ReadsHistory(events, t, ttl, max);
      ReadsHistory(init, s, ttl, max);
      MostRecentlyWritten(init, s, ttl, max);
      StaysRecent(events, s, t, ttl, max);
    }
  }

  lemma StaysRecent(events: seq<StoreEvent>, s: StoreState, t: StoreState, ttl: nat, max: nat)
    requires OrderedStep(events, s, t, ttl, max) && HoldsRecent(events[..|events| - 1], s, max)
    ensures HoldsRecent(events, t, max)
  {
    hide OrderedStep, Recent;
    forall id ensures id in t.entries <==> Recent(events, id, max) {
      if id in t.entries {
        KeptIsRecent(events, s, t, ttl, max, id);
      } else if Recent(events, id, max) {
        RecentIsKept(events, s, t, ttl, max, id);
      }
    }
  }

  /** A recent id was kept before, so a step that dropped it would contradict `DroppedInOrder`. */
  lemma RecentIsKept(events: seq<StoreEvent>, s: StoreState, t: StoreState, ttl: nat, max: nat, id: OperationId)
    requires OrderedStep(events, s, t, ttl, max) && HoldsRecent(events[..|events| - 1], s, max)
    requires Recent(events, id, max)
    ensures id in t.entries
  {
    hide Newer, Ordered, NeverPutExpired, Tracks, StoreStep;
    NewerGrows(events, LastPut(events, id));
    assert id in Written(s, events[|events| - 1]) by {
      if LastPut(events, id) < |events| - 1 {
        assert Recent(events[..|events| - 1], id, max);
      }
    }
    hide HoldsRecent, Written;
    if id !in t.entries {
      DroppedInOrder(events, s, t, ttl, max, id);
    }
  }

  /** Everything written after a kept id is kept as well. */
  lemma KeptIsRecent(events: seq<StoreEvent>, s: StoreState, t: StoreState, ttl: nat, max: nat, id: OperationId)
    requires OrderedStep(events, s, t, ttl, max) && HoldsRecent(events[..|events| - 1], s, max)
    requires id in t.entries
    ensures Recent(events, id, max)
  {
    hide Recorded, KeepsLater, Marked, Written, Ordered, NeverPutExpired;
    assert LastPut(events, id) >= 0 && |t.entries| <= max;
    hide OrderedStep, Newer, HoldsRecent;
    var i := LastPut(events, id);
    forall y | y in Newer(events, i) ensures y in t.entries.Keys - {id} {
      NewerIsKept(events, s, t, ttl, max, id, y);
    }
    Subset(Newer(events, i), t.entries.Keys - {id});
  }

  lemma NewerIsKept(events: seq<StoreEvent>, s: StoreState, t: StoreState, ttl: nat, max: nat, id: OperationId,
                    y: OperationId)
    requires OrderedStep(events, s, t, ttl, max) && HoldsRecent(events[..|events| - 1], s, max)
    requires id in t.entries && LastPut(events, id) >= 0 && y in Newer(events, LastPut(events, id))
    ensures y in t.entries && y != id
  {
    assert id in Written(s, events[|events| - 1]);
    hide Newer, Ordered, NeverPutExpired, Tracks, StoreStep, HoldsRecent, Written;
    NewerIsLater(events, LastPut(events, id), y);
    NewerWasKept(events, s, max, id, y);
    if y !in t.entries {
      DroppedInOrder(events, s, t, ttl, max, y);
      NewerIsLater(events, LastPut(events, y), id);
    }
  }

  lemma NewerWasKept(events: seq<StoreEvent>, s: StoreState, max: nat, id: OperationId, y: OperationId)
    requires 0 < |events| && HoldsRecent(events[..|events| - 1], s, max)
    requires id in Written(s, events[|events| - 1]) && 0 <= LastPut(events, id) < LastPut(events, y)
    ensures y in Written(s, events[|events| - 1])
  {
    var init := events[..|events| - 1];
    if LastPut(events, y) < |events| - 1 {
      assert Recent(init, id, max);
      assert Newer(init, LastPut(init, y)) <= Newer(init, LastPut(init, id));
      Subset(Newer(init, LastPut(init, y)), Newer(init, LastPut(init, id)));
      assert Recent(init, y, max);
    }
  }

  lemma PrefixOrdered(events: seq<StoreEvent>)
    requires |events| > 0 && Ordered(events) && NeverPutExpired(events)
    ensures Ordered(events[..|events| - 1]) && NeverPutExpired(events[..|events| - 1])
  {
  }
}
