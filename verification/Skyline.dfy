/**
 The mission skyline: lanes by greedy packing, the peak by a sweep, time totals and merged blocks. Two
 independent computations agree: the number of lanes the packer opens, the peak of the sweep, and the true
 maximum number of spans covering one instant are the same number.
 */
module Skyline {
  import opened Blocks
  import opened Lanes
  import opened Options
  import opened Seqs
  import opened Spans
  import opened SweepLine
  import opened TimeTotals

  const MAX_LANES: int := 4

  datatype SkylineData = SkylineData(
    totalSlots: int,
    blocks: seq<Block>,
    peakLanes: nat,
    foldedLanes: int,
    activeSpanMin: real,
    agentTimeMin: real,
    parallelFactor: real,
    peakConcurrency: int,
    reviewTailMin: Option<real>)

  function MinStart(spans: seq<Span>): (lo: int)
    requires spans != []
    ensures exists i :: 0 <= i < |spans| && spans[i].startMs == lo
    ensures forall i :: 0 <= i < |spans| ==> lo <= spans[i].startMs
  {
    if |spans| == 1 then spans[0].startMs
    else
      var rest := MinStart(spans[1..]);
      if spans[0].startMs <= rest then spans[0].startMs else rest
  }

  function MaxEnd(spans: seq<Span>): (hi: int)
    requires spans != []
    ensures exists i :: 0 <= i < |spans| && spans[i].endMs == hi
    ensures forall i :: 0 <= i < |spans| ==> spans[i].endMs <= hi
  {
    if |spans| == 1 then spans[0].endMs else Max(spans[0].endMs, MaxEnd(spans[1..]))
  }

  method AgentTime(spans: seq<Span>) returns (agentTimeMin: real)
    ensures agentTimeMin == Sum(spans, Length()) as real / 60000.0
  {
    agentTimeMin := 0.0;
    for i := 0 to |spans|
      invariant agentTimeMin == Sum(spans[..i], Length()) as real / 60000.0
    {
      SumStep(spans, i, Length());
      agentTimeMin := agentTimeMin + (spans[i].endMs - spans[i].startMs) as real / 60000.0;
    }
    assert spans[..|spans|] == spans;
  }

  /** The chart's blocks draw lane l at slot x exactly when a span of lane l covers an instant of slot x. */
  ghost predicate BlocksDrawSpans(blocks: seq<Block>, spans: seq<Span>, laneOf: seq<nat>, lo: int)
    requires |laneOf| == |spans|
  {
    forall l: nat, x :: Drawn(blocks, l, x) <==> LaneWorksInSlot(spans, laneOf, lo, l, x)
  }

  ghost predicate LaneWorksInSlot(spans: seq<Span>, laneOf: seq<nat>, lo: int, l: nat, x: int)
    requires |laneOf| == |spans|
  {
    exists i, t :: 0 <= i < |spans| && laneOf[i] == l && Covers(spans[i], t) && InSlot(t - lo, x)
  }

  lemma SlottedDraws(spans: seq<Span>, laneOf: seq<nat>, lo: int, slotted: seq<SlottedSpan>, l: nat, x: int)
    requires |laneOf| == |spans| == |slotted| && NonEmptySpans(spans)
    requires forall i :: 0 <= i < |spans| ==> lo <= spans[i].startMs && slotted[i] == Slotted(spans[i], lo, laneOf[i])
    ensures Uses(slotted, l, x) <==> LaneWorksInSlot(spans, laneOf, lo, l, x)
  {
    forall i | 0 <= i < |spans|
      ensures slotted[i].startSlot <= x < slotted[i].endSlot <==>
              exists t :: Covers(spans[i], t) && InSlot(t - lo, x)
    {
      SlottedMeaning(spans[i], lo, laneOf[i], x);
    }
  }

  ghost function SlottedSpans(spans: seq<Span>, laneOf: seq<nat>, lo: int): seq<SlottedSpan>
    requires |laneOf| == |spans|
  {
    seq(|spans|, i requires 0 <= i < |spans| => Slotted(spans[i], lo, laneOf[i]))
  }

  method SlotSpans(spans: seq<Span>, laneOf: seq<nat>, lo: int, hi: int) returns (slotted: seq<SlottedSpan>)
    requires |laneOf| == |spans| && NonEmptySpans(spans) && Within(spans, lo, hi)
    ensures |slotted| == |spans|
    ensures forall i :: 0 <= i < |spans| ==> slotted[i] == Slotted(spans[i], lo, laneOf[i])
    ensures SlotsOk(slotted, Max(1, CeilSlot(hi - lo)))
  {
    slotted := [];
    for i := 0 to |spans|
      invariant |slotted| == i
      invariant forall j :: 0 <= j < i ==> slotted[j] == Slotted(spans[j], lo, laneOf[j])
      invariant SlotsOk(slotted, Max(1, CeilSlot(hi - lo)))
    {
      slotted := slotted + [Slotted(spans[i], lo, laneOf[i])];
    }
  }

  /** The chart's lanes: an optimal packing, whose lane count is also the swept peak. */
  ghost predicate LanesFaithful(d: SkylineData, spans: seq<Span>, laneOf: seq<nat>)
  {
    && GreedyPacking(spans, laneOf, d.peakLanes) && TiesClimb(spans, laneOf)
    && d.peakLanes == d.peakConcurrency && IsPeak(spans, d.peakLanes)
    && d.foldedLanes == if d.peakLanes > 4 then d.peakLanes - 4 else 0
  }

  /** The chart's totals, in minutes, for a mission of agentMs worked over activeMs. */
  ghost predicate TimesFaithful(d: SkylineData, agentMs: int, activeMs: int)
  {
    && d.activeSpanMin == activeMs as real / 60000.0
    && d.agentTimeMin == agentMs as real / 60000.0
    && d.parallelFactor * d.activeSpanMin == d.agentTimeMin
    && InSlot(activeMs - 1, d.totalSlots - 1)
  }

  /** The chart's blocks: drawn without overlap inside [0, totalSlots), exactly where a span is. */
  ghost predicate BlocksFaithful(d: SkylineData, spans: seq<Span>, laneOf: seq<nat>, lo: int)
  {
    && |laneOf| == |spans|
    && Apart(d.blocks) && Sized(d.blocks, d.totalSlots)
    && BlocksDrawSpans(d.blocks, spans, laneOf, lo)
    && AreSlotted(SlottedSpans(spans, laneOf, lo), spans, laneOf, lo)
    && Joined(d.blocks, SlottedSpans(spans, laneOf, lo)) && Whole(d.blocks, SlottedSpans(spans, laneOf, lo))
    && LanesInTurn(d.blocks, SlottedSpans(spans, laneOf, lo))
  }

  /** Every span in its lane and state, from the slot of its start to that of its last instant. */
  ghost predicate AreSlotted(slotted: seq<SlottedSpan>, spans: seq<Span>, laneOf: seq<nat>, lo: int)
    requires |laneOf| == |spans|
  {
    && |slotted| == |spans|
    && forall i :: 0 <= i < |spans| ==> IsSlotted(slotted[i], spans[i], lo, laneOf[i])
  }

  /** What a chart says about the spans it was made from. */
  ghost predicate Faithful(d: SkylineData, spans: seq<Span>, laneOf: seq<nat>)
    requires spans != []
  {
    && LanesFaithful(d, spans, laneOf)
    && TimesFaithful(d, Sum(spans, Length()), MaxEnd(spans) - MinStart(spans))
    && BlocksFaithful(d, spans, laneOf, MinStart(spans))
  }

  /** The time from the last worker's end to the mission's completion, when longer than 5 minutes. */
  ghost predicate IsReviewTail(tail: Option<real>, missionCompletedAt: Option<int>, lastEndMs: int)
  {
    && (tail.Some? <==> missionCompletedAt.Some? && missionCompletedAt.value > lastEndMs + 5 * 60000)
    && (tail.Some? ==> tail.value * 60000.0 == (missionCompletedAt.value - lastEndMs) as real)
  }

  function ReviewTail(missionCompletedAt: Option<int>, lastEndMs: int): Option<real>
  {
    match missionCompletedAt
    case None => None
    case Some(endMs) =>
      if endMs - lastEndMs > 5 * 60000 then Some((endMs - lastEndMs) as real / 60000.0) else None
  }

  function ParallelFactor(agentTimeMin: real, activeSpanMin: real): (factor: real)
    ensures activeSpanMin > 0.0 ==> factor * activeSpanMin == agentTimeMin
  {
    if activeSpanMin > 0.0 then agentTimeMin / activeSpanMin else 1.0
  }

  method DrawBlocks(spans: seq<Span>, laneOf: seq<nat>, lo: int, hi: int) returns (blocks: seq<Block>)
    requires |laneOf| == |spans| && NonEmptySpans(spans) && Within(spans, lo, hi)
    ensures Apart(blocks) && Sized(blocks, Max(1, CeilSlot(hi - lo)))
    ensures BlocksDrawSpans(blocks, spans, laneOf, lo)
    ensures Joined(blocks, SlottedSpans(spans, laneOf, lo)) && Whole(blocks, SlottedSpans(spans, laneOf, lo))
    ensures LanesInTurn(blocks, SlottedSpans(spans, laneOf, lo))
  {
    var slottedSpans := SlotSpans(spans, laneOf, lo, hi);
    assert slottedSpans == SlottedSpans(spans, laneOf, lo);
    blocks := BuildBlocks(slottedSpans, Max(1, CeilSlot(hi - lo)));
    forall l: nat, x ensures Drawn(blocks, l, x) <==> LaneWorksInSlot(spans, laneOf, lo, l, x) {
      SlottedDraws(spans, laneOf, lo, slottedSpans, l, x);
    }
  }

  method ComputeMissionSkyline(tasks: seq<seq<WorkerSpan>>, missionCompletedAt: Option<int>, now: int)
    returns (chart: Option<SkylineData>, ghost laneOf: seq<nat>)
    ensures chart.None? <==> SpansOfTasks(tasks, now) == []
    ensures chart.Some? ==> Faithful(chart.value, SpansOfTasks(tasks, now), laneOf)
    ensures chart.Some? ==>
              IsReviewTail(chart.value.reviewTailMin, missionCompletedAt, MaxEnd(SpansOfTasks(tasks, now)))
    ensures exists from :: Picked(SpansOfTasks(tasks, now), from, AllWorkers(tasks), now)
  {
    var spans := CollectSpans(tasks, now);
    if |spans| == 0 {
      return None, [];
    }
    var missionStartMs, lastEndMs := MinStart(spans), MaxEnd(spans);
    var activeSpanMin := (lastEndMs - missionStartMs) as real / 60000.0;
    var agentTimeMin := AgentTime(spans);
    var totalSlots := Max(1, CeilSlot(lastEndMs - missionStartMs));
    var spanLanes, peakLanes := AssignLanes(spans);
    var foldedLanes := Max(0, peakLanes - MAX_LANES);
    var peakConcurrency := PeakConcurrency(spans);
    var parallelFactor := ParallelFactor(agentTimeMin, activeSpanMin);
    var blocks := DrawBlocks(spans, spanLanes, missionStartMs, lastEndMs);
    var d := SkylineData(totalSlots, blocks, peakLanes, foldedLanes, activeSpanMin, agentTimeMin,
                         parallelFactor, peakConcurrency, ReviewTail(missionCompletedAt, lastEndMs));
    PeakUnique(spans, peakLanes, peakConcurrency);
    ChartTimes(d, Sum(spans, Length()), lastEndMs - missionStartMs);
    forall i | 0 <= i < |spans| ensures IsSlotted(SlottedSpans(spans, spanLanes, missionStartMs)[i], spans[i], missionStartMs, spanLanes[i]) {
      SlottedExactly(spans[i], missionStartMs, spanLanes[i], Slotted(spans[i], missionStartMs, spanLanes[i]));
    }
    chart, laneOf := Some(d), spanLanes;
  }

  lemma ChartTimes(d: SkylineData, agentMs: int, activeMs: int)
    requires activeMs > 0
    requires d.activeSpanMin == activeMs as real / 60000.0 && d.agentTimeMin == agentMs as real / 60000.0
    requires d.parallelFactor == ParallelFactor(d.agentTimeMin, d.activeSpanMin)
    requires d.totalSlots == Max(1, CeilSlot(activeMs))
    ensures TimesFaithful(d, agentMs, activeMs)
  {
  }

  /**
   The chart's development check reports peakConcurrency > 1 with parallelFactor <= 1. The factor is
   at most 1 exactly when the idle time is at least the time worked beyond one worker at a time, so
   the check never fires on a mission without gaps.
   */
  lemma {:induction false} CheckFires(d: SkylineData, spans: seq<Span>, laneOf: seq<nat>)
    requires spans != [] && NonEmptySpans(spans) && Faithful(d, spans, laneOf)
    ensures var lo, hi := MinStart(spans), MaxEnd(spans);
            && (d.parallelFactor <= 1.0 <==> Surplus(spans, lo, hi) <= Idle(spans, lo, hi))
            && (d.peakConcurrency > 1 && d.parallelFactor <= 1.0 ==> !GapFree(spans, lo, hi))
            && d.parallelFactor <= d.peakConcurrency as real
  {
    var lo, hi := MinStart(spans), MaxEnd(spans);
    FactorBounds(d, spans, lo, hi, d.peakConcurrency);
  }

  lemma {:induction false} FactorBounds(d: SkylineData, spans: seq<Span>, lo: int, hi: int, peak: int)
    requires NonEmptySpans(spans) && Within(spans, lo, hi) && lo < hi && IsPeak(spans, peak)
    requires TimesFaithful(d, Sum(spans, Length()), hi - lo)
    ensures d.parallelFactor <= 1.0 <==> Surplus(spans, lo, hi) <= Idle(spans, lo, hi)
    ensures peak > 1 && d.parallelFactor <= 1.0 ==> !GapFree(spans, lo, hi)
    ensures d.parallelFactor <= peak as real
  {
    var agent, active := Sum(spans, Length()), hi - lo;
    assert d.parallelFactor <= 1.0 <==> agent <= active by { FactorBound(d, agent, active, 1); }
    assert agent <= peak * active ==> d.parallelFactor <= peak as real by { FactorBound(d, agent, active, peak); }
    AgentTimeLaws(spans, lo, hi, peak);
    GapFreeIsBusy(spans, lo, hi);
  }

  lemma FactorBound(d: SkylineData, agent: int, active: int, bound: int)
    requires active > 0 && TimesFaithful(d, agent, active)
    ensures d.parallelFactor <= bound as real <==> agent <= bound * active
  {
    var a, factor := d.activeSpanMin, d.parallelFactor;
    assert bound as real * a == (bound * active) as real / 60000.0;
    if factor <= bound as real {
      assert factor * a <= bound as real * a;
    } else {
      assert factor * a > bound as real * a;
    }
  }

  lemma {:induction false} ConcurrencyOfThree(a: Span, b: Span, c: Span, t: int)
    ensures Concurrency([a, b, c], t) ==
            (if Covers(a, t) then 1 else 0) + (if Covers(b, t) then 1 else 0) + if Covers(c, t) then 1 else 0
  {
    assert [a, b, c][..2] == [a, b] && [a, b][..1] == [a] && [a][..0] == [];
    assert Concurrency([a], t) == if Covers(a, t) then 1 else 0;
    assert Concurrency([a, b], t) == Concurrency([a], t) + if Covers(b, t) then 1 else 0;
  }

  /** Two workers at once, then a long pause. */
  function GapSpans(): seq<Span>
  {
    [Span(0, 10, Merged), Span(0, 10, Merged), Span(100, 110, Merged)]
  }

  lemma GapTotals()
    ensures var spans := GapSpans();
            IsPeak(spans, 2) && Sum(spans, Length()) == 30 && MinStart(spans) == 0 && MaxEnd(spans) == 110
  {
    var a, b, c := Span(0, 10, Merged), Span(0, 10, Merged), Span(100, 110, Merged);
    forall t { ConcurrencyOfThree(a, b, c, t); }
    assert Concurrency([a, b, c], 0) == 2;
    SumSnoc([a, b], c, Length());
    SumSnoc([a], b, Length());
    SumSnoc([], a, Length());
    assert [a, b] + [c] == [a, b, c] && [a] + [b] == [a, b] && [] + [a] == [a];
  }

  /** The check fires on every right chart of these spans, although both of its numbers are right. */
  lemma CheckFiresOnGaps(d: SkylineData, laneOf: seq<nat>)
    requires Faithful(d, GapSpans(), laneOf)
    ensures d.peakConcurrency == 2 && d.parallelFactor <= 1.0
  {
    GapTotals();
    PeakUnique(GapSpans(), d.peakConcurrency, 2);
    FactorBound(d, 30, 110, 1);
  }
}
