/** The gateway's system clock: a monotonic timeline re-anchored whenever the
    wall clock is ahead of it. */
module Clock {
  import opened Outcomes

  const U64_MAX: nat := 0xFFFF_FFFF_FFFF_FFFF
  const NANOS_PER_MS: nat := 1_000_000

  /** A wall-clock reading and the monotonic instant, in nanoseconds, at which
      it was taken. */
  datatype Anchor = Anchor(epochMs: nat, started: nat)

  /** One sampling of both clocks. */
  datatype Sample = Sample(wallMs: nat, instant: nat)

  function Min(a: nat, b: nat): nat {
    if a <= b then a else b
  }

  function SaturatingSub(a: nat, b: nat): nat {
    if a >= b then a - b else 0
  }

  function SaturatingAdd(a: nat, b: nat): nat {
    Min(a + b, U64_MAX)
  }

  /** `saturating_duration_ms`: whole milliseconds, capped at u64. */
  function DurationMs(nanos: nat): nat {
    Min(nanos / NANOS_PER_MS, U64_MAX)
  }

  /** Where the timeline of an anchor stands at an instant. */
  function Timeline(a: Anchor, instant: nat): nat {
    SaturatingAdd(a.epochMs, DurationMs(SaturatingSub(instant, a.started)))
  }

  class SystemClock {
    var anchor: Option<Anchor>

    constructor ()
      ensures anchor == None
    {
      anchor := None;
    }

    /** `advance`: one clock step. */
    method Advance(wallMs: nat, now: nat) returns (reading: nat)
      modifies this
      ensures (anchor, reading) == Step(old(anchor), Sample(wallMs, now))
    {
      if anchor.Some? && Timeline(anchor.value, now) >= wallMs {
        reading := Timeline(anchor.value, now);
      } else {
        anchor := Some(Anchor(wallMs, now));
        reading := wallMs;
      }
    }
  }

  function Step(anchor: Option<Anchor>, s: Sample): (Option<Anchor>, nat) {
    match anchor
    case Some(a) =>
      if Timeline(a, s.instant) >= s.wallMs then (anchor, Timeline(a, s.instant))
      else (Some(Anchor(s.wallMs, s.instant)), s.wallMs)
    case None => (Some(Anchor(s.wallMs, s.instant)), s.wallMs)
  }

  /** The readings of a whole run of samples. */
  function Readings(anchor: Option<Anchor>, samples: seq<Sample>): (r: seq<nat>)
    ensures |r| == |samples|
    decreases |samples|
  {
    if samples == [] then []
    else
      var step := Step(anchor, samples[0]);
      [step.1] + Readings(step.0, samples[1..])
  }

  /** Instants never go back, and wall readings are u64. */
  ghost predicate Admissible(samples: seq<Sample>) {
    && (forall i :: 0 <= i < |samples| ==> samples[i].wallMs <= U64_MAX)
    && (forall i, j :: 0 <= i <= j < |samples| ==> samples[i].instant <= samples[j].instant)
  }

  /** The least reading allowed at `instant` after reading r0 at t0. */
  function Floor(r0: nat, t0: nat, instant: nat): nat
    requires t0 <= instant
  {
    Min(U64_MAX, r0 + (instant - t0) / NANOS_PER_MS)
  }

  /** The timeline of `a` keeps up with a reading r0 taken at t0: it gave that
      reading, or was re-anchored strictly above it since. */
  ghost predicate KeepsUp(a: Anchor, r0: nat, t0: nat) {
    if a.started <= t0 then r0 <= Timeline(a, t0)
    else Min(U64_MAX, r0 + (a.started - t0) / NANOS_PER_MS + 1) <= a.epochMs
  }

  lemma KeepsUpMeans(a: Anchor, r0: nat, t0: nat, instant: nat)
    requires KeepsUp(a, r0, t0) && t0 <= instant && a.started <= instant
    ensures Floor(r0, t0, instant) <= Timeline(a, instant)
  {
  }

  /** A step at a later instant keeps up with every earlier reading, and with
      its own. */
  lemma StepKeepsUp(a: Anchor, r0: nat, t0: nat, s: Sample)
    requires KeepsUp(a, r0, t0) && t0 <= s.instant && a.started <= s.instant && s.wallMs <= U64_MAX
    ensures var (next, r) := Step(Some(a), s);
            && next.Some? && next.value.started <= s.instant
            && KeepsUp(next.value, r0, t0) && KeepsUp(next.value, r, s.instant)
            && Floor(r0, t0, s.instant) <= r && s.wallMs <= r
  {
    KeepsUpMeans(a, r0, t0, s.instant);
  }

  lemma {:induction false} RunKeepsUp(a: Anchor, r0: nat, t0: nat, samples: seq<Sample>, j: nat)
    requires Admissible(samples) && j < |samples|
    requires KeepsUp(a, r0, t0) && t0 <= samples[0].instant && a.started <= samples[0].instant
    ensures t0 <= samples[j].instant
    ensures Floor(r0, t0, samples[j].instant) <= Readings(Some(a), samples)[j]
    decreases j
  {
    StepKeepsUp(a, r0, t0, samples[0]);
    if j > 0 {
      var next := Step(Some(a), samples[0]).0;
      RunKeepsUp(next.value, r0, t0, samples[1..], j - 1);
    }
  }

  lemma StepReads(anchor: Option<Anchor>, s: Sample)
    requires s.wallMs <= U64_MAX
    requires anchor.Some? ==> anchor.value.started <= s.instant && anchor.value.epochMs <= U64_MAX
    ensures var (next, r) := Step(anchor, s);
            && next.Some? && next.value.started <= s.instant && next.value.epochMs <= U64_MAX
            && s.wallMs <= r <= U64_MAX && KeepsUp(next.value, r, s.instant)
  {
  }

  lemma FloorAtLeast(r0: nat, t0: nat, instant: nat)
    requires t0 <= instant && r0 <= U64_MAX
    ensures r0 <= Floor(r0, t0, instant) && (t0 == instant ==> Floor(r0, t0, instant) == r0)
  {
  }

  /** Over every run: a reading is at least the wall reading, never below an
      earlier reading, and grows by at least the whole milliseconds elapsed,
      until it saturates. */
  lemma {:induction false} NeverBackNeverFrozen(anchor: Option<Anchor>, samples: seq<Sample>, i: nat, j: nat)
    requires Admissible(samples) && i <= j < |samples|
    requires anchor.Some? ==> anchor.value.started <= samples[0].instant && anchor.value.epochMs <= U64_MAX
    ensures var r := Readings(anchor, samples);
            && samples[i].wallMs <= r[i] <= U64_MAX
            && samples[i].instant <= samples[j].instant
            && r[i] <= r[j]
            && Floor(r[i], samples[i].instant, samples[j].instant) <= r[j]
    decreases i
  {
    hide Step, KeepsUp, Floor, Timeline;
    var (next, first) := Step(anchor, samples[0]);
    var rest := samples[1..];
    StepReads(anchor, samples[0]);
    FloorAtLeast(first, samples[0].instant, samples[j].instant);
    if i > 0 {
      NeverBackNeverFrozen(next, rest, i - 1, j - 1);
      assert rest[i - 1] == samples[i] && rest[j - 1] == samples[j];
    } else if j > 0 {
      RunKeepsUp(next.value, first, samples[0].instant, rest, j - 1);
      assert rest[j - 1] == samples[j];
    }
  }

  /** The timeline sample k started stands at `instant` where the clock reads. */
  ghost predicate Explains(samples: seq<Sample>, k: nat, instant: nat, reading: nat) {
    k < |samples| && samples[k].instant <= instant
    && reading == Floor(samples[k].wallMs, samples[k].instant, instant)
  }

  lemma FreshTimeline(samples: seq<Sample>, instant: nat)
    requires samples != [] && samples[0].instant <= instant
    ensures Explains(samples, 0, instant, Timeline(Anchor(samples[0].wallMs, samples[0].instant), instant))
  {
  }

  lemma FreshReading(s: Sample)
    requires s.wallMs <= U64_MAX
    ensures Timeline(Anchor(s.wallMs, s.instant), s.instant) == s.wallMs
  {
  }

  /** One of the first j + 1 samples explains a reading. */
  ghost predicate Explained(samples: seq<Sample>, j: nat, instant: nat, reading: nat) {
    exists k :: 0 <= k <= j && Explains(samples, k, instant, reading)
  }

  lemma ExplainedLater(samples: seq<Sample>, j: nat, instant: nat, reading: nat)
    requires samples != [] && Explained(samples[1..], j, instant, reading)
    ensures Explained(samples, j + 1, instant, reading)
  {
    var k :| 0 <= k <= j && Explains(samples[1..], k, instant, reading);
    assert Explains(samples, k + 1, instant, reading);
  }

  /** The anchor is the initial one or one of the samples taken. */
  lemma {:induction false} AnchorIsSample(anchor: Option<Anchor>, samples: seq<Sample>, j: nat)
    requires Admissible(samples) && j < |samples|
    ensures var reading := Readings(anchor, samples)[j];
            || (anchor.Some? && reading == Timeline(anchor.value, samples[j].instant))
            || Explained(samples, j, samples[j].instant, reading)
    decreases j
  {
    var (next, first) := Step(anchor, samples[0]);
    if j == 0 {
      if next != anchor || anchor.None? {
        FreshReading(samples[0]);
        FreshTimeline(samples, samples[0].instant);
        assert Readings(anchor, samples)[0] == first;
      }
    } else {
      var rest, instant := samples[1..], samples[j].instant;
      var reading := Readings(next, rest)[j - 1];
      assert reading == Readings(anchor, samples)[j];
      assert rest[j - 1] == samples[j];
      AnchorIsSample(next, rest, j - 1);
      hide Timeline, Explains, Explained;
      if Explained(rest, j - 1, instant, reading) {
        ExplainedLater(samples, j - 1, instant, reading);
      } else if next != anchor {
        assert next == Some(Anchor(samples[0].wallMs, samples[0].instant));
        FirstExplains(samples, j);
      }
    }
  }

  lemma FirstExplains(samples: seq<Sample>, j: nat)
    requires Admissible(samples) && j < |samples|
    ensures var instant := samples[j].instant;
            Explained(samples, j, instant, Timeline(Anchor(samples[0].wallMs, samples[0].instant), instant))
  {
    FreshTimeline(samples, samples[j].instant);
  }

  /** A fresh clock reads exactly the highest of the timelines its samples
      started: at least each of them, and equal to one. */
  lemma ReadsHighestTimeline(samples: seq<Sample>, j: nat)
    requires Admissible(samples) && j < |samples|
    ensures forall k :: 0 <= k <= j ==>
              samples[k].instant <= samples[j].instant
              && Floor(samples[k].wallMs, samples[k].instant, samples[j].instant) <= Readings(None, samples)[j]
    ensures exists k :: 0 <= k <= j && Explains(samples, k, samples[j].instant, Readings(None, samples)[j])
  {
    hide Explains, Readings;
    forall k | 0 <= k <= j
      ensures samples[k].instant <= samples[j].instant
      ensures Floor(samples[k].wallMs, samples[k].instant, samples[j].instant) <= Readings(None, samples)[j]
    {
      NeverBackNeverFrozen(None, samples, k, j);
    }
    AnchorIsSample(None, samples, j);
  }
}
