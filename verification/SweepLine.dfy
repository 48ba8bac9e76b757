/** The peak concurrency by a sweep over start and end events, ends first at equal times. */
module SweepLine {
  import opened Seqs
  import opened Spans

  /** An end event has key 2*ms and delta -1, a start event key 2*ms+1 and delta +1. */
  datatype Event = Event(key: int, delta: int)

  predicate WellFormed(e: Event)
  {
    (e.delta == 1 && e.key % 2 == 1) || (e.delta == -1 && e.key % 2 == 0)
  }

  function MsEvents(spans: seq<Span>): seq<Event>
  {
    if spans == [] then []
    else
      var s := spans[|spans| - 1];
      MsEvents(spans[..|spans| - 1]) + [Event(s.endMs * 2, -1), Event(s.startMs * 2 + 1, 1)]
  }

  function ByKey(): (Event, Event) -> bool
  {
    (a: Event, b: Event) => a.key <= b.key
  }

  function Delta(): Event -> int
  {
    (e: Event) => e.delta
  }

  /** The delta of an event whose key is at most k, and 0 for a later event. */
  function UpTo(k: int): Event -> int
  {
    (e: Event) => if e.key <= k then e.delta else 0
  }

  lemma {:induction false} EventsWellFormed(spans: seq<Span>)
    ensures forall e :: e in MsEvents(spans) ==> WellFormed(e)
  {
    if spans != [] {
      EventsWellFormed(spans[..|spans| - 1]);
    }
  }

  /** Counting starts up to t and subtracting ends up to t gives the concurrency at t. */
  lemma {:induction false} EventsCountConcurrency(spans: seq<Span>, t: int)
    requires NonEmptySpans(spans)
    ensures Sum(MsEvents(spans), UpTo(2 * t + 1)) == Concurrency(spans, t)
  {
    if spans != [] {
      var n, f := |spans| - 1, UpTo(2 * t + 1);
      var s := spans[n];
      EventsCountConcurrency(spans[..n], t);
      var stop, start := Event(s.endMs * 2, -1), Event(s.startMs * 2 + 1, 1);
      SumAppend(MsEvents(spans[..n]), [stop, start], f);
      SumSnoc([stop], start, f);
      SumSnoc([], stop, f);
      assert [stop, start] == [stop] + [start] && [] + [stop] == [stop];
    }
  }

  ghost predicate SortedEvents(events: seq<Event>)
  {
    && (forall i, j :: 0 <= i < j < |events| ==> events[i].key <= events[j].key)
    && (forall e :: e in events ==> WellFormed(e))
  }

  lemma LaterTiesAreStarts(events: seq<Event>, k: nat)
    requires SortedEvents(events) && k < |events| && events[k].delta == 1
    ensures forall e :: e in events[k + 1..] ==> 0 <= UpTo(events[k].key)(e)
  {
    assert events[k] in events;
    forall i | k < i < |events| ensures 0 <= UpTo(events[k].key)(events[i]) {
      assert events[i] in events;
    }
  }

  /** Right after a start event the running count is at most the concurrency at that start. */
  lemma {:induction false} PrefixBelowTotal(events: seq<Event>, k: nat)
    requires SortedEvents(events) && k < |events| && events[k].delta == 1
    ensures Sum(events[..k + 1], Delta()) <= Sum(events, UpTo(events[k].key))
  {
    var f := UpTo(events[k].key);
    SumSplit(events, k + 1, f);
    SumCongruent(events[..k + 1], Delta(), f);
    LaterTiesAreStarts(events, k);
    SumNonNegative(events[k + 1..], f);
  }

  /** The total up to a key is the running count after some prefix. */
  lemma TotalIsPrefix(events: seq<Event>, key: int) returns (j: nat)
    requires SortedEvents(events)
    ensures j <= |events| && Sum(events, UpTo(key)) == Sum(events[..j], Delta())
  {
    j := 0;
    while j < |events| && events[j].key <= key
      invariant j <= |events|
      invariant forall i :: 0 <= i < j ==> events[i].key <= key
    {
      j := j + 1;
    }
    var f := UpTo(key);
    SumSplit(events, j, f);
    SumCongruent(events[..j], Delta(), f);
    SumZero(events[j..]);
    SumCongruent(events[j..], f, Zero());
  }

  lemma {:induction false} SortedMsEvents(spans: seq<Span>)
    requires NonEmptySpans(spans)
    ensures var events := Sort(MsEvents(spans), ByKey());
            CountsSpans(events, spans)
  {
    assert TotalPreorder(ByKey());
    SortSorts(MsEvents(spans), ByKey());
    var events := Sort(MsEvents(spans), ByKey());
    forall i, j | 0 <= i < j < |events| ensures events[i].key <= events[j].key {
      assert ByKey()(events[i], events[j]);
    }
    EventsWellFormed(spans);
    PermutationMembers(events, MsEvents(spans));
    forall t ensures Sum(events, UpTo(2 * t + 1)) == Concurrency(spans, t) {
      EventsCountConcurrency(spans, t);
      SumPermutation(events, MsEvents(spans), UpTo(2 * t + 1));
    }
  }

  ghost predicate CountsSpans(events: seq<Event>, spans: seq<Span>)
  {
    SortedEvents(events) && forall t :: Sum(events, UpTo(2 * t + 1)) == Concurrency(spans, t)
  }

  /** After k events: the running counts so far are bounded by peak, and peak is no exaggeration. */
  ghost predicate Swept(events: seq<Event>, spans: seq<Span>, k: nat, peak: int)
    requires k <= |events|
  {
    && (forall j :: 0 <= j <= k ==> Sum(events[..j], Delta()) <= peak)
    && (exists t :: peak <= Concurrency(spans, t))
  }

  /** Every running count of the sweep is at most peak, and peak is reached at some instant. */
  lemma SweepFindsPeak(spans: seq<Span>, events: seq<Event>, peak: int)
    requires CountsSpans(events, spans) && Swept(events, spans, |events|, peak)
    ensures IsPeak(spans, peak)
  {
    forall t ensures Concurrency(spans, t) <= peak {
      var j := TotalIsPrefix(events, 2 * t + 1);
      assert Sum(events[..j], Delta()) <= peak;
    }
    var t :| peak <= Concurrency(spans, t);
    assert Concurrency(spans, t) == peak;
  }

  lemma SweepStep(events: seq<Event>, spans: seq<Span>, k: nat, peak: int)
    requires CountsSpans(events, spans) && k < |events| && Swept(events, spans, k, peak)
    ensures var count := Sum(events[..k + 1], Delta());
            Swept(events, spans, k + 1, if count > peak then count else peak)
  {
    var count := Sum(events[..k + 1], Delta());
    if count > peak {
      assert Sum(events[..k], Delta()) <= peak;
      SumStep(events, k, Delta());
      assert events[k] in events;
      assert WellFormed(events[k]);
      PrefixBelowTotal(events, k);
      var t := (events[k].key - 1) / 2;
      assert 2 * t + 1 == events[k].key;
      assert count <= Concurrency(spans, t);
    }
  }

  method PeakConcurrency(spans: seq<Span>) returns (peakConcurrency: int)
    requires NonEmptySpans(spans)
    ensures IsPeak(spans, peakConcurrency)
  {
    var msEvents: seq<Event> := [];
    for i := 0 to |spans|
      invariant msEvents == MsEvents(spans[..i])
    {
      var s := spans[i];
      assert spans[..i + 1][..i] == spans[..i];
      msEvents := msEvents + [Event(s.endMs * 2, -1)];
      msEvents := msEvents + [Event(s.startMs * 2 + 1, 1)];
    }
    assert spans[..|spans|] == spans;
    SortedMsEvents(spans);
    msEvents := Sort(msEvents, ByKey());
    var concurrent := 0;
    peakConcurrency := 0;
    assert 0 <= Concurrency(spans, 0);
    for k := 0 to |msEvents|
      invariant concurrent == Sum(msEvents[..k], Delta())
      invariant Swept(msEvents, spans, k, peakConcurrency)
    {
      var delta := msEvents[k].delta;
      SumStep(msEvents, k, Delta());
      SweepStep(msEvents, spans, k, peakConcurrency);
      concurrent := concurrent + delta;
      if concurrent > peakConcurrency {
        peakConcurrency := concurrent;
      }
    }
    SweepFindsPeak(spans, msEvents, peakConcurrency);
  }
}
