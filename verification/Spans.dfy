/**
 The time spans of a mission's workers and how many of them cover an instant. Time is integer milliseconds
 and spans are half-open: a span covers the instant t when startMs <= t < endMs.
 */
module Spans {
  import opened Options
  import opened Seqs

  datatype BlockState = Merged | Awaiting | Failed

  datatype WorkerSpan = WorkerSpan(
    startedAt: Option<int>,
    completedAt: Option<int>,
    updatedAt: Option<int>,
    status: string,
    prUrl: Option<string>,
    mergedAt: Option<int>)

  datatype Span = Span(startMs: int, endMs: int, state: BlockState)

  // ---------------------------------------------------------------- spans

  function WorkerEndMs(w: WorkerSpan, now: int): int
  {
    match w.completedAt
    case Some(t) => t
    case None => match w.updatedAt case Some(t) => t case None => now
  }

  function WorkerBlockState(w: WorkerSpan): BlockState
  {
    if w.status == "error" then Failed
    else if w.mergedAt.Some? then Merged
    else if w.prUrl.Some? && w.prUrl.value != "" then Awaiting
    else Merged
  }

  /** A worker contributes a span when it started and its end is strictly later than its start. */
  predicate HasSpan(w: WorkerSpan, now: int)
  {
    w.startedAt.Some? && w.startedAt.value < WorkerEndMs(w, now)
  }

  function SpanOf(w: WorkerSpan, now: int): Span
    requires HasSpan(w, now)
  {
    Span(w.startedAt.value, WorkerEndMs(w, now), WorkerBlockState(w))
  }

  ghost function SpansOfWorkers(workers: seq<WorkerSpan>, now: int): seq<Span>
  {
    if workers == [] then []
    else
      var before := SpansOfWorkers(workers[..|workers| - 1], now);
      var w := workers[|workers| - 1];
      if HasSpan(w, now) then before + [SpanOf(w, now)] else before
  }

  ghost function SpansOfTasks(tasks: seq<seq<WorkerSpan>>, now: int): seq<Span>
  {
    if tasks == [] then []
    else SpansOfTasks(tasks[..|tasks| - 1], now) + SpansOfWorkers(tasks[|tasks| - 1], now)
  }

  ghost predicate NonEmptySpans(spans: seq<Span>)
  {
    forall i :: 0 <= i < |spans| ==> spans[i].startMs < spans[i].endMs
  }

  // What the spans are, in terms of the workers' stamps.

  /** A completed worker ends when it completed; another one at its last update; one with neither stamp now. */
  ghost predicate EndsAt(w: WorkerSpan, now: int, e: int)
  {
    && (w.completedAt.Some? ==> w.completedAt == Some(e))
    && (w.completedAt.None? && w.updatedAt.Some? ==> w.updatedAt == Some(e))
    && (w.completedAt.None? && w.updatedAt.None? ==> now == e)
  }

  /** An error fails the block; otherwise a pull request that is not merged yet leaves it awaiting. */
  ghost predicate HasState(w: WorkerSpan, state: BlockState)
  {
    && (state == Failed <==> w.status == "error")
    && (state == Awaiting <==>
          w.status != "error" && w.mergedAt.None? && w.prUrl.Some? && w.prUrl.value != "")
  }

  ghost predicate IsSpanOf(s: Span, w: WorkerSpan, now: int)
  {
    w.startedAt == Some(s.startMs) && EndsAt(w, now, s.endMs) && s.startMs < s.endMs && HasState(w, s.state)
  }

  /** The workers of all tasks, in order. */
  ghost function AllWorkers(tasks: seq<seq<WorkerSpan>>): seq<WorkerSpan>
  {
    if tasks == [] then [] else AllWorkers(tasks[..|tasks| - 1]) + tasks[|tasks| - 1]
  }

  /** The spans are those of the workers at the positions from, in order; no other worker has one. */
  ghost predicate Picked(spans: seq<Span>, from: seq<nat>, workers: seq<WorkerSpan>, now: int)
  {
    && |from| == |spans|
    && (forall k :: 0 <= k < |from| ==> from[k] < |workers| && IsSpanOf(spans[k], workers[from[k]], now))
    && (forall k, m :: 0 <= k < m < |from| ==> from[k] < from[m])
    && (forall j: nat :: j < |workers| && j !in from ==> NoSpan(workers[j], now))
  }

  ghost predicate NoSpan(w: WorkerSpan, now: int)
  {
    forall s :: !IsSpanOf(s, w, now)
  }

  lemma HasSpanExactly(w: WorkerSpan, now: int, s: Span)
    ensures IsSpanOf(s, w, now) <==> HasSpan(w, now) && s == SpanOf(w, now)
  {
  }

  lemma {:induction false} PickedWorkers(workers: seq<WorkerSpan>, now: int) returns (from: seq<nat>)
    ensures Picked(SpansOfWorkers(workers, now), from, workers, now)
  {
    from := [];
    if workers != [] {
      var n := |workers| - 1;
      from := PickedWorkers(workers[..n], now);
      forall s { HasSpanExactly(workers[n], now, s); }
      if HasSpan(workers[n], now) {
        PickedSnoc(SpansOfWorkers(workers[..n], now), from, workers[..n], now, workers[n], SpanOf(workers[n], now));
        assert workers[..n] + [workers[n]] == workers;
        from := from + [n];
      }
    }
  }

  lemma PickedSnoc(spans: seq<Span>, from: seq<nat>, workers: seq<WorkerSpan>, now: int, w: WorkerSpan, s: Span)
    requires Picked(spans, from, workers, now) && IsSpanOf(s, w, now)
    ensures Picked(spans + [s], from + [|workers|], workers + [w], now)
  {
  }

  lemma {:induction false} SpansAppend(v: seq<WorkerSpan>, w: seq<WorkerSpan>, now: int)
    ensures SpansOfWorkers(v + w, now) == SpansOfWorkers(v, now) + SpansOfWorkers(w, now)
  {
    if w == [] {
      assert v + w == v;
    } else {
      var n := |w| - 1;
      assert (v + w)[..|v + w| - 1] == v + w[..n];
      SpansAppend(v, w[..n], now);
    }
  }

  lemma {:induction false} SpansOfAll(tasks: seq<seq<WorkerSpan>>, now: int)
    ensures SpansOfTasks(tasks, now) == SpansOfWorkers(AllWorkers(tasks), now)
  {
    if tasks != [] {
      var n := |tasks| - 1;
      SpansOfAll(tasks[..n], now);
      SpansAppend(AllWorkers(tasks[..n]), tasks[n], now);
    }
  }

  /** The collected spans: one for each worker that started and ended later, between its start and its end. */
  lemma SpansExactly(tasks: seq<seq<WorkerSpan>>, now: int) returns (from: seq<nat>)
    ensures Picked(SpansOfTasks(tasks, now), from, AllWorkers(tasks), now)
  {
    SpansOfAll(tasks, now);
    from := PickedWorkers(AllWorkers(tasks), now);
  }

  lemma {:induction false} SameWorkers(a: seq<WorkerSpan>, b: seq<WorkerSpan>, now: int, later: int)
    requires |a| == |b|
    requires forall j, s :: 0 <= j < |a| ==> (IsSpanOf(s, a[j], now) <==> IsSpanOf(s, b[j], later))
    ensures SpansOfWorkers(a, now) == SpansOfWorkers(b, later)
  {
    if a != [] {
      var n := |a| - 1;
      SameWorkers(a[..n], b[..n], now, later);
      if HasSpan(a[n], now) {
        HasSpanExactly(a[n], now, SpanOf(a[n], now));
        HasSpanExactly(b[n], later, SpanOf(a[n], now));
      }
      if HasSpan(b[n], later) {
        HasSpanExactly(b[n], later, SpanOf(b[n], later));
        HasSpanExactly(a[n], now, SpanOf(b[n], later));
      }
    }
  }

  /** A worker with a stamp has the same span whenever one asks, and a completed one whatever its last update. */
  lemma SpanStays(w: WorkerSpan, now: int, later: int, updatedAt: Option<int>)
    requires w.completedAt.Some? || (w.updatedAt.Some? && updatedAt == w.updatedAt)
    ensures forall s :: IsSpanOf(s, w, now) <==> IsSpanOf(s, w.(updatedAt := updatedAt), later)
  {
  }

  /** So a mission whose workers have all completed has the same spans whenever one asks, whatever was updated since. */
  lemma {:induction false} CompletedSpansStay(tasks: seq<seq<WorkerSpan>>, updated: seq<seq<WorkerSpan>>, now: int, later: int)
    requires |tasks| == |updated|
    requires forall i :: 0 <= i < |tasks| ==> OnlyUpdated(tasks[i], updated[i])
    ensures SpansOfTasks(tasks, now) == SpansOfTasks(updated, later)
  {
    if tasks != [] {
      var n := |tasks| - 1;
      CompletedSpansStay(tasks[..n], updated[..n], now, later);
      assert OnlyUpdated(tasks[n], updated[n]);
      forall j | 0 <= j < |tasks[n]|
        ensures forall s :: IsSpanOf(s, tasks[n][j], now) <==> IsSpanOf(s, updated[n][j], later)
      {
        SpanStays(tasks[n][j], now, later, updated[n][j].updatedAt);
      }
      SameWorkers(tasks[n], updated[n], now, later);
    }
  }

  ghost predicate OnlyUpdated(workers: seq<WorkerSpan>, updated: seq<WorkerSpan>)
  {
    && |workers| == |updated|
    && forall j :: 0 <= j < |workers| ==>
         workers[j].completedAt.Some? && updated[j] == workers[j].(updatedAt := updated[j].updatedAt)
  }

  method CollectSpans(tasks: seq<seq<WorkerSpan>>, now: int) returns (spans: seq<Span>)
    ensures spans == SpansOfTasks(tasks, now)
    ensures NonEmptySpans(spans)
    ensures exists from :: Picked(spans, from, AllWorkers(tasks), now)
  {
    ghost var from := SpansExactly(tasks, now);
    spans := [];
    for i := 0 to |tasks|
      invariant spans == SpansOfTasks(tasks[..i], now)
      invariant NonEmptySpans(spans)
    {
      var workers := tasks[i];
      ghost var before := spans;
      for j := 0 to |workers|
        invariant spans == before + SpansOfWorkers(workers[..j], now)
        invariant NonEmptySpans(spans)
      {
        var w := workers[j];
        assert workers[..j + 1][..j] == workers[..j];
        if w.startedAt.Some? {
          var startMs := w.startedAt.value;
          var endMs := WorkerEndMs(w, now);
          if startMs < endMs {
            spans := spans + [Span(startMs, endMs, WorkerBlockState(w))];
          }
        }
      }
      assert workers[..|workers|] == workers;
      assert tasks[..i + 1][..i] == tasks[..i];
    }
    assert tasks[..|tasks|] == tasks;
  }

  // ---------------------------------------------------------------- concurrency

  predicate Covers(s: Span, t: int)
  {
    s.startMs <= t < s.endMs
  }

  /** How many spans cover the instant t. */
  function Concurrency(spans: seq<Span>, t: int): nat
  {
    if spans == [] then 0
    else Concurrency(spans[..|spans| - 1], t) + if Covers(spans[|spans| - 1], t) then 1 else 0
  }

  /** The positions of the spans that cover t. */
  ghost function Covering(spans: seq<Span>, t: int): set<nat>
  {
    set i: nat | i < |spans| && Covers(spans[i], t)
  }

  lemma {:induction false} CoveringSize(spans: seq<Span>, t: int)
    ensures |Covering(spans, t)| == Concurrency(spans, t)
  {
    if spans != [] {
      var n := |spans| - 1;
      CoveringSize(spans[..n], t);
      if Covers(spans[n], t) {
        assert Covering(spans, t) == Covering(spans[..n], t) + {n};
      } else {
        assert Covering(spans, t) == Covering(spans[..n], t);
      }
    }
  }

  /** p is the largest number of spans that cover one instant. */
  ghost predicate IsPeak(spans: seq<Span>, p: int)
  {
    && (exists t :: Concurrency(spans, t) == p)
    && (forall t :: Concurrency(spans, t) <= p)
  }
}
