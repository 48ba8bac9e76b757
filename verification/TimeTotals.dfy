/** Agent time against active time: the same total counted span by span and instant by instant. */
module TimeTotals {
  import opened Seqs
  import opened Spans

  function Length(): Span -> int
  {
    (s: Span) => s.endMs - s.startMs
  }

  /** The sum of the concurrency over the instants of [lo, hi). */
  ghost function Integral(spans: seq<Span>, lo: int, hi: int): int
    requires lo <= hi
    decreases hi - lo
  {
    if lo == hi then 0 else Integral(spans, lo, hi - 1) + Concurrency(spans, hi - 1)
  }

  /** The instants of [lo, hi) at which no span is open. */
  ghost function Idle(spans: seq<Span>, lo: int, hi: int): nat
    requires lo <= hi
    decreases hi - lo
  {
    if lo == hi then 0 else Idle(spans, lo, hi - 1) + if Concurrency(spans, hi - 1) == 0 then 1 else 0
  }

  /** The sum over the instants of [lo, hi) of the spans beyond the first. */
  ghost function Surplus(spans: seq<Span>, lo: int, hi: int): nat
    requires lo <= hi
    decreases hi - lo
  {
    if lo == hi then 0
    else
      var c := Concurrency(spans, hi - 1);
      Surplus(spans, lo, hi - 1) + if c > 1 then c - 1 else 0
  }

  ghost predicate Within(spans: seq<Span>, lo: int, hi: int)
  {
    lo <= hi && forall i :: 0 <= i < |spans| ==> lo <= spans[i].startMs && spans[i].endMs <= hi
  }

  lemma {:induction false} IntegralSnoc(spans: seq<Span>, s: Span, lo: int, hi: int)
    requires lo <= hi && lo <= s.startMs < s.endMs
    ensures Integral(spans + [s], lo, hi) == Integral(spans, lo, hi) +
            if hi <= s.startMs then 0 else if hi <= s.endMs then hi - s.startMs else s.endMs - s.startMs
    decreases hi - lo
  {
    if lo < hi {
      IntegralSnoc(spans, s, lo, hi - 1);
      assert (spans + [s])[..|spans|] == spans;
    }
  }

  lemma {:induction false} IntegralEmpty(lo: int, hi: int)
    requires lo <= hi
    ensures Integral([], lo, hi) == 0
    decreases hi - lo
  {
    if lo < hi {
      IntegralEmpty(lo, hi - 1);
    }
  }

  /** Counted span by span or instant by instant, the agent time is the same. */
  lemma {:induction false} AgentTimeIsIntegral(spans: seq<Span>, lo: int, hi: int)
    requires NonEmptySpans(spans) && Within(spans, lo, hi)
    ensures Sum(spans, Length()) == Integral(spans, lo, hi)
  {
    if spans == [] {
      IntegralEmpty(lo, hi);
    } else {
      var n := |spans| - 1;
      AgentTimeIsIntegral(spans[..n], lo, hi);
      assert spans == spans[..n] + [spans[n]];
      SumSnoc(spans[..n], spans[n], Length());
      IntegralSnoc(spans[..n], spans[n], lo, hi);
    }
  }

  lemma {:induction false} IntegralBounds(spans: seq<Span>, lo: int, hi: int, peak: nat)
    requires lo <= hi && forall t :: Concurrency(spans, t) <= peak
    ensures Integral(spans, lo, hi) <= peak * (hi - lo)
    ensures Integral(spans, lo, hi) == (hi - lo) - Idle(spans, lo, hi) + Surplus(spans, lo, hi)
    decreases hi - lo
  {
    if lo < hi {
      IntegralBounds(spans, lo, hi - 1, peak);
      assert peak * (hi - lo) == peak * (hi - 1 - lo) + peak;
    }
  }

  lemma {:induction false} SurplusPositive(spans: seq<Span>, lo: int, hi: int, t: int)
    requires lo <= t < hi && Concurrency(spans, t) > 1
    ensures Surplus(spans, lo, hi) > 0
    decreases hi - lo
  {
    if t < hi - 1 {
      SurplusPositive(spans, lo, hi - 1, t);
    }
  }

  lemma {:induction false} ConcurrencyNeedsSpan(spans: seq<Span>, t: int)
    requires Concurrency(spans, t) > 0
    ensures exists i :: 0 <= i < |spans| && Covers(spans[i], t)
  {
    var n := |spans| - 1;
    if !Covers(spans[n], t) {
      ConcurrencyNeedsSpan(spans[..n], t);
      var i :| 0 <= i < n && Covers(spans[..n][i], t);
      assert Covers(spans[i], t);
    }
  }

  /**
   The agent time is the sum over instants of the concurrency, hence at most peak times the active
   span. It exceeds the active span exactly when more time is worked in surplus than is idle.
   */
  lemma {:induction false} AgentTimeLaws(spans: seq<Span>, lo: int, hi: int, peak: int)
    requires NonEmptySpans(spans) && Within(spans, lo, hi) && IsPeak(spans, peak)
    ensures Sum(spans, Length()) == Integral(spans, lo, hi) <= peak * (hi - lo)
    ensures Sum(spans, Length()) > hi - lo <==> Surplus(spans, lo, hi) > Idle(spans, lo, hi)
    ensures peak > 1 ==> Surplus(spans, lo, hi) > 0
  {
    AgentTimeIsIntegral(spans, lo, hi);
    var t :| Concurrency(spans, t) == peak;
    IntegralBounds(spans, lo, hi, peak);
    if peak > 1 {
      ConcurrencyNeedsSpan(spans, t);
      SurplusPositive(spans, lo, hi, t);
    }
  }

  ghost predicate GapFree(spans: seq<Span>, lo: int, hi: int)
  {
    forall t :: lo <= t < hi ==> Concurrency(spans, t) > 0
  }

  lemma {:induction false} GapFreeIsBusy(spans: seq<Span>, lo: int, hi: int)
    requires lo <= hi
    ensures GapFree(spans, lo, hi) <==> Idle(spans, lo, hi) == 0
    decreases hi - lo
  {
    if lo < hi {
      GapFreeIsBusy(spans, lo, hi - 1);
      if GapFree(spans, lo, hi - 1) && Concurrency(spans, hi - 1) > 0 {
        assert GapFree(spans, lo, hi);
      }
    }
  }

  lemma {:induction false} SurplusZero(spans: seq<Span>, lo: int, hi: int)
    requires lo <= hi && forall t :: Concurrency(spans, t) <= 1
    ensures Surplus(spans, lo, hi) == 0
    decreases hi - lo
  {
    if lo < hi {
      SurplusZero(spans, lo, hi - 1);
    }
  }

  /** In a mission without gaps, the spans outweigh the active time exactly when two ran at once. */
  lemma {:induction false} GapFreeParallelism(spans: seq<Span>, lo: int, hi: int, peak: int)
    requires NonEmptySpans(spans) && Within(spans, lo, hi) && IsPeak(spans, peak)
    requires GapFree(spans, lo, hi)
    ensures peak > 1 <==> Sum(spans, Length()) > hi - lo
  {
    AgentTimeLaws(spans, lo, hi, peak);
    GapFreeIsBusy(spans, lo, hi);
    if peak <= 1 {
      SurplusZero(spans, lo, hi);
    }
  }
}
