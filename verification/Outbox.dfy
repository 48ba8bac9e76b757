/**
 The runner's outbox: failed requests are queued, a PATCH replaces an older PATCH for the same
 endpoint, and a flush replays the queue in order, keeping what fails for later. The clock, the
 random part of an id and the result of each replayed request are parameters; a flush is one step here, and
 OutboxFlush takes it apart.
 */
module Outbox {
  import opened Options
  import opened Strings

  const START_INTERVAL: int := 30000
  const MAX_INTERVAL: int := 300000
  const MAX_RETRIES: nat := 10

  datatype Entry = Entry(id: string, verb: string, endpoint: string, body: Option<string>, timestamp: int, retries: nat)

  // ---------------------------------------------------------------- what is queued

  const WORKERS: string := "/api/workers/"

  /** The endpoint ends in /api/workers/ and one more non-empty segment. */
  predicate IsWorkerEndpoint(endpoint: string)
  {
    exists k: nat :: k <= |endpoint| && At(endpoint, k, WORKERS) &&
      k + |WORKERS| < |endpoint| && '/' !in endpoint[k + |WORKERS|..]
  }

  predicate Excluded(endpoint: string, part: string)
  {
    Occurs(part, endpoint) && !Occurs(WORKERS, endpoint)
  }

  predicate ShouldQueue(verb: string, endpoint: string)
  {
    if verb == "GET" then false
    else if Excluded(endpoint, "/api/workers/claim") || Excluded(endpoint, "/api/tasks/") then false
    else if IsWorkerEndpoint(endpoint) && verb == "PATCH" then true
    else if Occurs("/memory", endpoint) && verb == "POST" then true
    else Occurs("/plan", endpoint) && verb == "POST"
  }

  /** The exclusion of the claim endpoint never applies: its guard contradicts it. */
  lemma ClaimIsNeverExcluded(endpoint: string)
    ensures !Excluded(endpoint, "/api/workers/claim")
    ensures ShouldQueue("PATCH", "/api/workers/claim")
  {
    var claim := "/api/workers/claim";
    if Occurs(claim, endpoint) {
      var k: nat :| k <= |endpoint| && At(endpoint, k, claim);
      assert endpoint[k..k + |WORKERS|] == endpoint[k..k + |claim|][..|WORKERS|] == WORKERS;
      assert At(endpoint, k, WORKERS);
    }
    assert At(claim, 0, WORKERS);
    assert IsWorkerEndpoint(claim);
  }

  /** The endpoint is a path to one worker: anything, then the workers' path, then one segment. */
  ghost predicate NamesWorker(endpoint: string)
  {
    exists before, id :: endpoint == before + WORKERS + id && id != "" && '/' !in id
  }

  lemma WorkerEndpointExactly(endpoint: string)
    ensures IsWorkerEndpoint(endpoint) <==> NamesWorker(endpoint)
  {
    if IsWorkerEndpoint(endpoint) {
      var k: nat :| k <= |endpoint| && At(endpoint, k, WORKERS) && k + |WORKERS| < |endpoint| &&
                    '/' !in endpoint[k + |WORKERS|..];
      assert endpoint == endpoint[..k] + WORKERS + endpoint[k + |WORKERS|..];
    }
    if NamesWorker(endpoint) {
      var before, id :| endpoint == before + WORKERS + id && id != "" && '/' !in id;
      assert At(endpoint, |before|, WORKERS);
      assert endpoint[|before| + |WORKERS|..] == id;
    }
  }

  /** Queued are PATCHes of one worker, and POSTs of memories and plans, unless these go to tasks and not to workers. */
  lemma QueuedExactly(verb: string, endpoint: string)
    ensures ShouldQueue(verb, endpoint) <==>
              || (verb == "PATCH" && NamesWorker(endpoint))
              || (verb == "POST" && (Occurs("/memory", endpoint) || Occurs("/plan", endpoint)) &&
                  (Occurs("/api/tasks/", endpoint) ==> Occurs("/api/workers/", endpoint)))
  {
    ClaimIsNeverExcluded(endpoint);
    WorkerEndpointExactly(endpoint);
    if IsWorkerEndpoint(endpoint) {
      var k: nat :| k <= |endpoint| && At(endpoint, k, WORKERS);
      assert Occurs(WORKERS, endpoint);
    }
  }

  // ---------------------------------------------------------------- the queue

  predicate PatchTo(e: Entry, endpoint: string)
  {
    e.verb == "PATCH" && e.endpoint == endpoint
  }

  function WithoutPatch(entries: seq<Entry>, endpoint: string): seq<Entry>
  {
    if entries == [] then []
    else
      var before := WithoutPatch(entries[..|entries| - 1], endpoint);
      var e := entries[|entries| - 1];
      if PatchTo(e, endpoint) then before else before + [e]
  }

  function Enqueued(entries: seq<Entry>, e: Entry): seq<Entry>
  {
    (if e.verb == "PATCH" then WithoutPatch(entries, e.endpoint) else entries) + [e]
  }

  /** No two PATCHes for one endpoint. */
  ghost predicate Compact(entries: seq<Entry>)
  {
    forall i, j :: 0 <= i < j < |entries| && entries[i].verb == "PATCH" && entries[j].verb == "PATCH" ==>
      entries[i].endpoint != entries[j].endpoint
  }

  /** What happens to an entry that is replayed: the server takes it, refuses it, or the call throws. */
  datatype Outcome = Accepted | Refused | Threw

  function Retried(e: Entry): Entry
  {
    e.(retries := e.retries + 1)
  }

  ghost function Delivered(entries: seq<Entry>, outcomes: seq<Outcome>): seq<Entry>
    requires |outcomes| == |entries|
  {
    if entries == [] then []
    else
      var n := |entries| - 1;
      var before := Delivered(entries[..n], outcomes[..n]);
      if outcomes[n] == Accepted then before + [entries[n]] else before
  }

  ghost function Remaining(entries: seq<Entry>, outcomes: seq<Outcome>): seq<Entry>
    requires |outcomes| == |entries|
  {
    if entries == [] then []
    else
      var n := |entries| - 1;
      var before := Remaining(entries[..n], outcomes[..n]);
      if outcomes[n] != Accepted && entries[n].retries + 1 < MAX_RETRIES then before + [Retried(entries[n])] else before
  }

  ghost function Dropped(entries: seq<Entry>, outcomes: seq<Outcome>): seq<Entry>
    requires |outcomes| == |entries|
  {
    if entries == [] then []
    else
      var n := |entries| - 1;
      var before := Dropped(entries[..n], outcomes[..n]);
      if outcomes[n] != Accepted && entries[n].retries + 1 >= MAX_RETRIES then before + [entries[n]] else before
  }

  function Min(a: int, b: int): int
  {
    if a <= b then a else b
  }

  /** The wait before the next flush: reset by a delivery, doubled up to a cap when nothing went out. */
  function NextInterval(interval: int, flushed: nat, remaining: nat): int
  {
    if flushed > 0 then START_INTERVAL
    else if remaining > 0 then Min(interval * 2, MAX_INTERVAL)
    else interval
  }

  class Outbox {
    var entries: seq<Entry>
    var timer: bool
    var flushInterval: int
    var handler: bool

    constructor (loaded: seq<Entry>)
      ensures entries == loaded && !timer && !handler && flushInterval == START_INTERVAL
    {
      entries := loaded;
      timer, handler := false, false;
      flushInterval := START_INTERVAL;
    }

    method Enqueue(verb: string, endpoint: string, body: Option<string>, id: string, now: int)
      modifies this
      ensures entries == if ShouldQueue(verb, endpoint)
                         then Enqueued(old(entries), Entry(id, verb, endpoint, body, now, 0)) else old(entries)
      ensures timer == (old(timer) || ShouldQueue(verb, endpoint))
      ensures flushInterval == old(flushInterval) && handler == old(handler)
    {
      if !ShouldQueue(verb, endpoint) {
        return;
      }
      if verb == "PATCH" {
        var kept: seq<Entry> := [];
        for i := 0 to |entries|
          invariant kept == WithoutPatch(entries[..i], endpoint)
          invariant entries == old(entries) && timer == old(timer)
          invariant flushInterval == old(flushInterval) && handler == old(handler)
        {
          assert entries[..i + 1][..i] == entries[..i];
          if !PatchTo(entries[i], endpoint) {
            kept := kept + [entries[i]];
          }
        }
        assert entries[..|entries|] == entries;
        entries := kept;
      }
      entries := entries + [Entry(id, verb, endpoint, body, now, 0)];
      StartFlushTimer();
    }

    method SetFlushHandler()
      modifies this
      ensures handler
      ensures entries == old(entries) && timer == old(timer) && flushInterval == old(flushInterval)
    {
      handler := true;
    }

    /** Replays the entries, oldest first; outcomes are the results of the replayed requests. */
    method Flush(outcomes: seq<Outcome>) returns (flushed: nat, failed: nat, remaining: nat)
      requires |outcomes| == |entries|
      modifies this
      ensures handler == old(handler) && remaining == |entries|
      ensures !handler || old(entries) == [] ==>
                flushed == failed == 0 && entries == old(entries) &&
                timer == old(timer) && flushInterval == old(flushInterval)
      ensures handler && old(entries) != [] ==>
                && entries == Remaining(old(entries), outcomes)
                && flushed == |Delivered(old(entries), outcomes)|
                && failed == |Dropped(old(entries), outcomes)|
                && flushInterval == NextInterval(old(flushInterval), flushed, remaining)
                && (flushed > 0 ==> flushInterval == 30 * 1000)
                && (flushed == 0 && remaining > 0 ==> flushInterval == Min(2 * old(flushInterval), 300 * 1000))
                && (flushed == 0 && remaining == 0 ==> flushInterval == old(flushInterval))
                && (timer <==> entries != [])
      ensures flushed + failed + remaining == |old(entries)|
    {
      if !handler || |entries| == 0 {
        return 0, 0, |entries|;
      }
      flushed, failed := 0, 0;
      var kept: seq<Entry> := [];
      for i := 0 to |entries|
        invariant kept == Remaining(entries[..i], outcomes[..i])
        invariant flushed == |Delivered(entries[..i], outcomes[..i])|
        invariant failed == |Dropped(entries[..i], outcomes[..i])|
        invariant flushed + failed + |kept| == i
        invariant entries == old(entries) && handler && timer == old(timer) && flushInterval == old(flushInterval)
      {
        var entry := entries[i];
        assert entries[..i + 1][..i] == entries[..i] && outcomes[..i + 1][..i] == outcomes[..i];
        match outcomes[i]
        case Accepted =>
          flushed := flushed + 1;
        case Refused =>
          entry := Retried(entry);
          if entry.retries < MAX_RETRIES { kept := kept + [entry]; } else { failed := failed + 1; }
        case Threw =>
          entry := Retried(entry);
          if entry.retries < MAX_RETRIES { kept := kept + [entry]; } else { failed := failed + 1; }
      }
      assert entries[..|entries|] == entries && outcomes[..|entries|] == outcomes;
      entries := kept;
      if flushed > 0 {
        flushInterval := START_INTERVAL;
      } else if |kept| > 0 {
        flushInterval := Min(flushInterval * 2, MAX_INTERVAL);
      }
      if |kept| > 0 {
        StartFlushTimer();
      } else {
        StopFlushTimer();
      }
      remaining := |kept|;
    }

    /** The timer goes off: it is cleared, then the queue is flushed. */
    method TimerFires(outcomes: seq<Outcome>)
      requires |outcomes| == |entries|
      modifies this
      ensures entries == if old(handler) then Remaining(old(entries), outcomes) else old(entries)
      ensures handler == old(handler)
      ensures timer <==> old(handler) && entries != []
      ensures flushInterval == if old(handler) && old(entries) != []
                               then NextInterval(old(flushInterval), |Delivered(old(entries), outcomes)|, |entries|)
                               else old(flushInterval)
    {
      timer := false;
      var _, _, _ := Flush(outcomes);
    }

    method Clear()
      modifies this
      ensures entries == [] && !timer
      ensures flushInterval == old(flushInterval) && handler == old(handler)
    {
      entries := [];
      StopFlushTimer();
    }

    method StartFlushTimer()
      modifies this`timer
      ensures timer
    {
      if timer { return; }
      timer := true;
    }

    method StopFlushTimer()
      modifies this`timer
      ensures !timer
    {
      if timer { timer := false; }
    }
  }

  // ---------------------------------------------------------------- backoff

  function Pow2(k: nat): nat
  {
    if k == 0 then 1 else 2 * Pow2(k - 1)
  }

  /** The wait after k flushes in a row that delivered nothing and kept something. */
  ghost function IntervalAfter(k: nat): int
  {
    if k == 0 then START_INTERVAL else NextInterval(IntervalAfter(k - 1), 0, 1)
  }

  lemma {:induction false} BackoffDoublesToCap(k: nat)
    ensures IntervalAfter(k) == Min(START_INTERVAL * Pow2(k), MAX_INTERVAL)
  {
    if k > 0 { BackoffDoublesToCap(k - 1); }
  }

  /** A history of flushes: how many entries each delivered, and how many it left. */
  ghost function IntervalFrom(flushes: seq<(nat, nat)>): int
  {
    if flushes == [] then START_INTERVAL
    else
      var last := flushes[|flushes| - 1];
      NextInterval(IntervalFrom(flushes[..|flushes| - 1]), last.0, last.1)
  }

  /** The wait is never shorter than 30 seconds nor longer than five minutes, and 30 seconds after every delivery. */
  lemma {:induction false} IntervalStaysInRange(flushes: seq<(nat, nat)>)
    ensures 30 * 1000 <= IntervalFrom(flushes) <= 5 * 60 * 1000
    ensures flushes != [] && flushes[|flushes| - 1].0 > 0 ==> IntervalFrom(flushes) == 30 * 1000
  {
    if flushes != [] { IntervalStaysInRange(flushes[..|flushes| - 1]); }
  }

  // ---------------------------------------------------------------- giving up

  ghost predicate NothingAccepted(outcomes: seq<Outcome>)
  {
    forall i :: 0 <= i < |outcomes| ==> outcomes[i] != Accepted
  }

  /** One queue after another, each what a flush without any delivery leaves of the one before. */
  ghost predicate Outage(queues: seq<seq<Entry>>)
  {
    forall k :: 0 <= k < |queues| - 1 ==> UndeliveredFlush(queues[k], queues[k + 1])
  }

  ghost predicate UndeliveredFlush(queue: seq<Entry>, next: seq<Entry>)
  {
    exists outcomes :: |outcomes| == |queue| && NothingAccepted(outcomes) && next == Remaining(queue, outcomes)
  }

  /** The entries that live through k more failures, with those added. */
  ghost function Aged(queue: seq<Entry>, k: nat): seq<Entry>
  {
    if queue == [] then []
    else
      var n := |queue| - 1;
      var e := queue[n];
      Aged(queue[..n], k) + if e.retries + k < 10 then [e.(retries := e.retries + k)] else []
  }

  lemma {:induction false} FailedTogether(queue: seq<Entry>, outcomes: seq<Outcome>)
    requires |outcomes| == |queue| && NothingAccepted(outcomes)
    ensures Remaining(queue, outcomes) == Aged(queue, 1)
  {
    if queue != [] {
      var n := |queue| - 1;
      FailedTogether(queue[..n], outcomes[..n]);
    }
  }

  lemma AgedSnoc(queue: seq<Entry>, e: Entry, k: nat)
    ensures Aged(queue + [e], k) ==
            Aged(queue, k) + if e.retries + k < 10 then [e.(retries := e.retries + k)] else []
  {
    assert (queue + [e])[..|queue|] == queue;
  }

  lemma {:induction false} AgedAgain(queue: seq<Entry>, k: nat)
    ensures Aged(Aged(queue, k), 1) == Aged(queue, k + 1)
  {
    if queue != [] {
      var n := |queue| - 1;
      var e, before := queue[n], Aged(queue[..n], k);
      AgedAgain(queue[..n], k);
      AgedSnoc(before, e.(retries := e.retries + k), 1);
      assert before + [] == before;
    }
  }

  lemma {:induction false} AgedWhole(queue: seq<Entry>, k: nat)
    requires forall e :: e in queue ==> e.retries == 0
    ensures |Aged(queue, k)| == if k < 10 then |queue| else 0
  {
    if queue != [] { AgedWhole(queue[..|queue| - 1], k); }
  }

  /**
   In an outage exactly the entries with fewer than ten failures, old and new ones together, are left after k
   flushes, in order. A queue without any failure is kept whole through nine flushes and given up at the tenth.
   */
  lemma {:induction false} GivenUpAtTenth(queues: seq<seq<Entry>>, k: nat)
    requires Outage(queues) && 0 < k < |queues|
    ensures queues[k] == Aged(queues[0], k)
    ensures (forall e :: e in queues[0] ==> e.retries == 0) ==>
              |queues[k]| == if k < 10 then |queues[0]| else 0
  {
    if k > 1 {
      GivenUpAtTenth(queues, k - 1);
      AgedAgain(queues[0], k - 1);
    }
    assert UndeliveredFlush(queues[k - 1], queues[k]);
    var outcomes :| |outcomes| == |queues[k - 1]| && NothingAccepted(outcomes) &&
                    queues[k] == Remaining(queues[k - 1], outcomes);
    FailedTogether(queues[k - 1], outcomes);
    if forall e :: e in queues[0] ==> e.retries == 0 { AgedWhole(queues[0], k); }
  }

  // ---------------------------------------------------------------- the server

  /**
   The server keeps a document per endpoint, changed by PATCH through the given function, and the list of
   the records posted to each endpoint.
   */
  type Patch<!D> = (Option<D>, Option<string>) -> D

  datatype Posted = Posted(id: string, endpoint: string, body: Option<string>)

  ghost predicate PostTo(e: Entry, endpoint: string)
  {
    e.verb != "PATCH" && e.endpoint == endpoint
  }

  ghost function Record(e: Entry): Posted
  {
    Posted(e.id, e.endpoint, e.body)
  }

  /** The records that the entries post to an endpoint, in order. */
  ghost function PostsTo(entries: seq<Entry>, endpoint: string): seq<Posted>
  {
    if entries == [] then []
    else
      var before := PostsTo(entries[..|entries| - 1], endpoint);
      var e := entries[|entries| - 1];
      if PostTo(e, endpoint) then before + [Record(e)] else before
  }

  /** The document of one endpoint after the entries have been applied in order. */
  ghost function Doc<D>(patch: Patch<D>, doc: Option<D>, entries: seq<Entry>, endpoint: string): Option<D>
  {
    if entries == [] then doc
    else
      var before := Doc(patch, doc, entries[..|entries| - 1], endpoint);
      var e := entries[|entries| - 1];
      if PatchTo(e, endpoint) then Some(patch(before, e.body)) else before
  }

  /** A later PATCH wipes out an earlier one. */
  ghost predicate Absorbing<D(!new)>(patch: Patch<D>)
  {
    forall d, b1, b2 :: patch(Some(patch(d, b1)), b2) == patch(d, b2)
  }

  /** The body of the last PATCH to an endpoint. */
  ghost function LastBody(entries: seq<Entry>, endpoint: string): Option<Option<string>>
  {
    if entries == [] then None
    else if PatchTo(entries[|entries| - 1], endpoint) then Some(entries[|entries| - 1].body)
    else LastBody(entries[..|entries| - 1], endpoint)
  }

  lemma {:induction false} DocIsLastBody<D(!new)>(patch: Patch<D>, doc: Option<D>, entries: seq<Entry>, endpoint: string)
    requires Absorbing(patch)
    ensures Doc(patch, doc, entries, endpoint) ==
            match LastBody(entries, endpoint) case None => doc case Some(b) => Some(patch(doc, b))
  {
    if entries != [] {
      DocIsLastBody(patch, doc, entries[..|entries| - 1], endpoint);
    }
  }

  lemma {:induction false} LastBodySnoc(entries: seq<Entry>, e: Entry, ep: string)
    ensures LastBody(entries + [e], ep) == if PatchTo(e, ep) then Some(e.body) else LastBody(entries, ep)
  {
    assert (entries + [e])[..|entries|] == entries;
  }

  lemma {:induction false} PostsSnoc(entries: seq<Entry>, e: Entry, ep: string)
    ensures PostsTo(entries + [e], ep) == PostsTo(entries, ep) + if PostTo(e, ep) then [Record(e)] else []
  {
    assert (entries + [e])[..|entries|] == entries;
  }

  lemma {:induction false} LastBodyAppend(a: seq<Entry>, b: seq<Entry>, endpoint: string)
    ensures LastBody(a + b, endpoint) ==
            if LastBody(b, endpoint).Some? then LastBody(b, endpoint) else LastBody(a, endpoint)
  {
    if b == [] {
      assert a + b == a;
    } else {
      assert (a + b)[..|a + b| - 1] == a + b[..|b| - 1];
      LastBodyAppend(a, b[..|b| - 1], endpoint);
    }
  }

  lemma {:induction false} PostsAppend(a: seq<Entry>, b: seq<Entry>, ep: string)
    ensures PostsTo(a + b, ep) == PostsTo(a, ep) + PostsTo(b, ep)
  {
    if b == [] {
      assert a + b == a;
    } else {
      assert (a + b)[..|a + b| - 1] == a + b[..|b| - 1];
      PostsAppend(a, b[..|b| - 1], ep);
    }
  }

  // ---------------------------------------------------------------- compaction

  lemma {:induction false} WithoutPatchBody(entries: seq<Entry>, endpoint: string, other: string)
    ensures LastBody(WithoutPatch(entries, endpoint), other) ==
            if other == endpoint then None else LastBody(entries, other)
  {
    if entries != [] {
      var n := |entries| - 1;
      WithoutPatchBody(entries[..n], endpoint, other);
      LastBodySnoc(WithoutPatch(entries[..n], endpoint), entries[n], other);
    }
  }

  lemma {:induction false} WithoutPatchPosts(entries: seq<Entry>, endpoint: string, other: string)
    ensures PostsTo(WithoutPatch(entries, endpoint), other) == PostsTo(entries, other)
  {
    if entries != [] {
      var n := |entries| - 1;
      WithoutPatchPosts(entries[..n], endpoint, other);
      PostsSnoc(WithoutPatch(entries[..n], endpoint), entries[n], other);
    }
  }

  lemma {:induction false} WithoutPatchMembers(entries: seq<Entry>, endpoint: string)
    ensures forall e :: e in WithoutPatch(entries, endpoint) ==> e in entries && !PatchTo(e, endpoint)
  {
    if entries != [] {
      WithoutPatchMembers(entries[..|entries| - 1], endpoint);
      assert entries == entries[..|entries| - 1] + [entries[|entries| - 1]];
    }
  }

  lemma {:induction false} WithoutPatchCompact(entries: seq<Entry>, endpoint: string)
    requires Compact(entries)
    ensures Compact(WithoutPatch(entries, endpoint))
  {
    if entries != [] {
      var n := |entries| - 1;
      WithoutPatchCompact(entries[..n], endpoint);
      WithoutPatchMembers(entries[..n], endpoint);
      var before := WithoutPatch(entries[..n], endpoint);
      forall i | 0 <= i < |before| && before[i].verb == "PATCH" && entries[n].verb == "PATCH"
        ensures before[i].endpoint != entries[n].endpoint
      {
        assert before[i] in entries[..n];
      }
    }
  }

  lemma EnqueuedCompact(entries: seq<Entry>, e: Entry)
    requires Compact(entries)
    ensures Compact(Enqueued(entries, e))
  {
    WithoutPatchCompact(entries, e.endpoint);
    WithoutPatchMembers(entries, e.endpoint);
    var before := if e.verb == "PATCH" then WithoutPatch(entries, e.endpoint) else entries;
    forall i | 0 <= i < |before| && before[i].verb == "PATCH" && e.verb == "PATCH"
      ensures before[i].endpoint != e.endpoint
    {
      assert before[i] in before;
    }
  }

  /** One request: the queue says the same as before plus the new request. */
  lemma {:induction false} EnqueuedSays(entries: seq<Entry>, e: Entry, endpoint: string)
    ensures LastBody(Enqueued(entries, e), endpoint) == LastBody(entries + [e], endpoint)
    ensures PostsTo(Enqueued(entries, e), endpoint) == PostsTo(entries + [e], endpoint)
  {
    var before := if e.verb == "PATCH" then WithoutPatch(entries, e.endpoint) else entries;
    WithoutPatchBody(entries, e.endpoint, endpoint);
    WithoutPatchPosts(entries, e.endpoint, endpoint);
    LastBodySnoc(before, e, endpoint);
    LastBodySnoc(entries, e, endpoint);
    PostsSnoc(before, e, endpoint);
    PostsSnoc(entries, e, endpoint);
  }

  /** The queue after a log of requests. */
  ghost function Compacted(log: seq<Entry>): seq<Entry>
  {
    if log == [] then [] else Enqueued(Compacted(log[..|log| - 1]), log[|log| - 1])
  }

  /** The compacted queue: no two PATCHes for an endpoint, the last body of each, every posted record in order. */
  lemma {:induction false} CompactedFacts(log: seq<Entry>, endpoint: string)
    ensures Compact(Compacted(log))
    ensures LastBody(Compacted(log), endpoint) == LastBody(log, endpoint)
    ensures PostsTo(Compacted(log), endpoint) == PostsTo(log, endpoint)
  {
    if log != [] {
      var n := |log| - 1;
      var queue := Compacted(log[..n]);
      CompactedFacts(log[..n], endpoint);
      EnqueuedCompact(queue, log[n]);
      EnqueuedSays(queue, log[n], endpoint);
      LastBodySnoc(queue, log[n], endpoint);
      PostsSnoc(queue, log[n], endpoint);
    }
  }

  /** Replaying the compacted queue leaves the server as replaying every request would. */
  ghost predicate Lossless<D(!new)>(patch: Patch<D>)
  {
    forall log, doc, endpoint {:trigger Doc(patch, doc, Compacted(log), endpoint)} ::
      Doc(patch, doc, Compacted(log), endpoint) == Doc(patch, doc, log, endpoint)
  }

  /** Compaction loses nothing, on every log, exactly when a later PATCH wipes out an earlier one. */
  lemma LosslessExactly<D(!new)>(patch: Patch<D>)
    ensures Lossless(patch) <==> Absorbing(patch)
  {
    if Absorbing(patch) {
      forall log, doc, endpoint
        ensures Doc(patch, doc, Compacted(log), endpoint) == Doc(patch, doc, log, endpoint)
      {
        CompactedFacts(log, endpoint);
        DocIsLastBody(patch, doc, log, endpoint);
        DocIsLastBody(patch, doc, Compacted(log), endpoint);
      }
    }
    if Lossless(patch) {
      forall d, b1, b2 ensures patch(Some(patch(d, b1)), b2) == patch(d, b2) {
        TwoPatches(patch, d, b1, b2);
      }
    }
  }

  lemma {:induction false} DocSnoc<D>(patch: Patch<D>, doc: Option<D>, entries: seq<Entry>, e: Entry, ep: string)
    ensures Doc(patch, doc, entries + [e], ep) ==
            var before := Doc(patch, doc, entries, ep);
            if PatchTo(e, ep) then Some(patch(before, e.body)) else before
  {
    assert (entries + [e])[..|entries|] == entries;
  }

  lemma CompactedPair(e1: Entry, e2: Entry)
    requires e1.verb == e2.verb == "PATCH" && e1.endpoint == e2.endpoint
    ensures Compacted([e1] + [e2]) == [] + [e2]
  {
    assert ([e1] + [e2])[..1] == [e1] && [e1][..0] == [];
    assert WithoutPatch([e1], e1.endpoint) == [];
    assert Compacted([e1]) == [e1];
  }

  lemma TwoPatches<D(!new)>(patch: Patch<D>, d: Option<D>, b1: Option<string>, b2: Option<string>)
    requires Lossless(patch)
    ensures patch(Some(patch(d, b1)), b2) == patch(d, b2)
  {
    var e1, e2 := Entry("1", "PATCH", "w", b1, 0, 0), Entry("2", "PATCH", "w", b2, 0, 0);
    CompactedPair(e1, e2);
    DocSnoc(patch, d, [e1], e2, "w");
    DocSnoc(patch, d, [], e1, "w");
    DocSnoc(patch, d, [], e2, "w");
    assert [] + [e1] == [e1];
    assert Doc(patch, d, Compacted([e1] + [e2]), "w") == Doc(patch, d, [e1] + [e2], "w");
  }

  /** A server that stores the body as the document. */
  function Overwrite(): Patch<Option<string>>
  {
    (doc: Option<Option<string>>, body: Option<string>) => body
  }

  lemma OverwriteIsAbsorbing()
    ensures Absorbing(Overwrite())
  {
  }

  type Fields = map<string, string>

  /** A server that merges the fields of the body into the document. */
  function Merge(decode: Option<string> -> Fields): Patch<Fields>
  {
    (doc: Option<Fields>, body: Option<string>) => (if doc.Some? then doc.value else map[]) + decode(body)
  }

  /** The fields that the PATCHes of a log to an endpoint mention. */
  ghost function FieldsMentioned(decode: Option<string> -> Fields, log: seq<Entry>, endpoint: string): set<string>
  {
    if log == [] then {}
    else
      var e := log[|log| - 1];
      FieldsMentioned(decode, log[..|log| - 1], endpoint) + if PatchTo(e, endpoint) then decode(e.body).Keys else {}
  }

  lemma {:induction false} MergedFields(decode: Option<string> -> Fields, doc: Fields, log: seq<Entry>, endpoint: string)
    requires LastBody(log, endpoint).Some?
    ensures var d := Doc(Merge(decode), Some(doc), log, endpoint);
            && d.Some? && d.value.Keys == doc.Keys + FieldsMentioned(decode, log, endpoint)
            && (forall k :: k in decode(LastBody(log, endpoint).value) ==>
                  k in d.value && d.value[k] == decode(LastBody(log, endpoint).value)[k])
            && (forall k :: k in doc && k !in FieldsMentioned(decode, log, endpoint) ==> d.value[k] == doc[k])
  {
    var n := |log| - 1;
    if LastBody(log[..n], endpoint).Some? {
      MergedFields(decode, doc, log[..n], endpoint);
    } else {
      NoPatchNoField(decode, doc, log[..n], endpoint);
    }
  }

  lemma {:induction false} NoPatchNoField(decode: Option<string> -> Fields, doc: Fields, log: seq<Entry>, endpoint: string)
    requires LastBody(log, endpoint).None?
    ensures Doc(Merge(decode), Some(doc), log, endpoint) == Some(doc)
    ensures FieldsMentioned(decode, log, endpoint) == {}
  {
    if log != [] { NoPatchNoField(decode, doc, log[..|log| - 1], endpoint); }
  }

  /**
   On a merging server a log survives compaction, whatever the document was, exactly when the last
   PATCH to the endpoint mentions every field that an earlier one did.
   */
  lemma {:induction false} MergeLossless(decode: Option<string> -> Fields, log: seq<Entry>, endpoint: string)
    requires LastBody(log, endpoint).Some?
    ensures (forall doc: Fields {:trigger Doc(Merge(decode), Some(doc), log, endpoint)} ::
               Doc(Merge(decode), Some(doc), Compacted(log), endpoint) == Doc(Merge(decode), Some(doc), log, endpoint))
            <==> FieldsMentioned(decode, log, endpoint) <= decode(LastBody(log, endpoint).value).Keys
  {
    var last := decode(LastBody(log, endpoint).value);
    CompactedFacts(log, endpoint);
    LastIsMentioned(decode, log, endpoint);
    CompactMentionsLast(decode, Compacted(log), endpoint);
    if FieldsMentioned(decode, log, endpoint) <= last.Keys {
      forall doc: Fields
        ensures Doc(Merge(decode), Some(doc), Compacted(log), endpoint) == Doc(Merge(decode), Some(doc), log, endpoint)
      {
        MergedFields(decode, doc, log, endpoint);
        MergedFields(decode, doc, Compacted(log), endpoint);
        var a := Doc(Merge(decode), Some(doc), Compacted(log), endpoint).value;
        var b := Doc(Merge(decode), Some(doc), log, endpoint).value;
        assert a == b;
      }
    } else {
      MergedFields(decode, map[], log, endpoint);
      MergedFields(decode, map[], Compacted(log), endpoint);
      assert Doc(Merge(decode), Some(map[]), Compacted(log), endpoint).value.Keys == last.Keys;
      assert Doc(Merge(decode), Some(map[]), Compacted(log), endpoint) != Doc(Merge(decode), Some(map[]), log, endpoint);
    }
  }

  /** A field that only the first of two PATCHes mentions is lost in compaction. */
  lemma MergeLosesField(decode: Option<string> -> Fields, e1: Entry, e2: Entry, k: string)
    requires PatchTo(e1, e2.endpoint) && PatchTo(e2, e2.endpoint)
    requires k in decode(e1.body) && k !in decode(e2.body)
    ensures Compacted([e1] + [e2]) == [e2]
    ensures Doc(Merge(decode), Some(map[]), Compacted([e1] + [e2]), e2.endpoint) == Some(decode(e2.body))
    ensures var full := Doc(Merge(decode), Some(map[]), [e1] + [e2], e2.endpoint); full.Some? && k in full.value
  {
    CompactedPair(e1, e2);
    var ep := e2.endpoint;
    DocSnoc(Merge(decode), Some(map[]), [], e2, ep);
    DocSnoc(Merge(decode), Some(map[]), [], e1, ep);
    DocSnoc(Merge(decode), Some(map[]), [e1], e2, ep);
    assert [] + [e1] == [e1] && [] + [e2] == [e2];
    var none: Fields := map[];
    assert none + decode(e2.body) == decode(e2.body);
  }

  lemma {:induction false} LastIsMentioned(decode: Option<string> -> Fields, log: seq<Entry>, endpoint: string)
    requires LastBody(log, endpoint).Some?
    ensures decode(LastBody(log, endpoint).value).Keys <= FieldsMentioned(decode, log, endpoint)
  {
    if !PatchTo(log[|log| - 1], endpoint) { LastIsMentioned(decode, log[..|log| - 1], endpoint); }
  }

  lemma {:induction false} CompactMentionsLast(decode: Option<string> -> Fields, queue: seq<Entry>, endpoint: string)
    requires Compact(queue)
    ensures FieldsMentioned(decode, queue, endpoint) ==
            if LastBody(queue, endpoint).Some? then decode(LastBody(queue, endpoint).value).Keys else {}
  {
    if queue != [] {
      var n := |queue| - 1;
      CompactMentionsLast(decode, queue[..n], endpoint);
      if PatchTo(queue[n], endpoint) {
        NoOtherPatch(queue, n, endpoint);
      }
    }
  }

  lemma {:induction false} NoOtherPatch(queue: seq<Entry>, n: nat, endpoint: string)
    requires Compact(queue) && n < |queue| && PatchTo(queue[n], endpoint)
    ensures LastBody(queue[..n], endpoint).None?
  {
    NoPatchNoBody(queue[..n], endpoint);
  }

  lemma {:induction false} NoPatchNoBody(entries: seq<Entry>, endpoint: string)
    ensures LastBody(entries, endpoint).None? <==> forall i :: 0 <= i < |entries| ==> !PatchTo(entries[i], endpoint)
  {
    if entries != [] {
      var n := |entries| - 1;
      NoPatchNoBody(entries[..n], endpoint);
      assert (forall i :: 0 <= i < n ==> !PatchTo(entries[..n][i], endpoint)) <==>
             (forall i :: 0 <= i < n ==> !PatchTo(entries[i], endpoint));
    }
  }

  // ---------------------------------------------------------------- whole runs

  /**
   The outbox and the server over time. log holds the entries loaded at the start and every request made,
   delivered those the server has applied, in its order; lost holds entries given up after ten failures or
   cleared, and stale the endpoints whose latest PATCH is among them, or was sent while another body waited.
   */
  datatype World = World(queue: seq<Entry>, delivered: seq<Entry>, log: seq<Entry>, lost: seq<Entry>, stale: set<string>)

  datatype Event =
    | Fail(e: Entry)        // a request that failed and was queued
    | Direct(e: Entry)      // a request that the server took at once
    | Flush(outcomes: seq<Outcome>)
    | Clear

  ghost function Freshen(stale: set<string>, e: Entry): set<string>
  {
    if e.verb == "PATCH" then stale - {e.endpoint} else stale
  }

  ghost function PatchedEndpoints(entries: seq<Entry>): set<string>
  {
    set e | e in entries && e.verb == "PATCH" :: e.endpoint
  }

  /** Another body waits for the endpoint, so that a flush will overwrite what is sent now. */
  ghost predicate IsOvertaken(queue: seq<Entry>, e: Entry)
  {
    e.verb == "PATCH" && LastBody(queue, e.endpoint) !in {None, Some(e.body)}
  }

  ghost predicate Enabled(w: World, event: Event)
  {
    match event
    case Fail(e) => true
    case Direct(e) => true
    case Flush(outcomes) => |outcomes| == |w.queue|
    case Clear => true
  }

  ghost function Step(w: World, event: Event): World
    requires Enabled(w, event)
  {
    match event
    case Fail(e) => w.(queue := Enqueued(w.queue, e), log := w.log + [e], stale := Freshen(w.stale, e))
    case Direct(e) =>
      w.(delivered := w.delivered + [e], log := w.log + [e],
         stale := if IsOvertaken(w.queue, e) then w.stale + {e.endpoint} else Freshen(w.stale, e))
    case Flush(outcomes) =>
      w.(queue := Remaining(w.queue, outcomes),
         delivered := w.delivered + Delivered(w.queue, outcomes),
         lost := w.lost + Dropped(w.queue, outcomes),
         stale := w.stale + PatchedEndpoints(Dropped(w.queue, outcomes)))
    case Clear =>
      w.(queue := [], lost := w.lost + w.queue, stale := w.stale + PatchedEndpoints(w.queue))
  }

  /** The start: the queue as it was saved, and an empty server. */
  ghost function Loaded(queue: seq<Entry>): World
  {
    World(queue, [], queue, [], {})
  }

  ghost predicate IsRun(worlds: seq<World>, events: seq<Event>)
  {
    && |worlds| == |events| + 1 && worlds[0] == Loaded(worlds[0].queue) && Compact(worlds[0].queue)
    && forall k :: 0 <= k < |events| ==> Enabled(worlds[k], events[k]) && worlds[k + 1] == Step(worlds[k], events[k])
  }

  /** Every record posted to the endpoint is on the server, waiting or lost. */
  ghost predicate PostsConserved(w: World, ep: string)
  {
    multiset(PostsTo(w.log, ep)) ==
      multiset(PostsTo(w.delivered, ep)) + multiset(PostsTo(w.queue, ep)) + multiset(PostsTo(w.lost, ep))
  }

  /** What is known at every moment of a run. */
  ghost predicate Faithful(w: World)
  {
    && Compact(w.queue)
    && (forall ep :: ep !in w.stale ==> LastBody(w.delivered + w.queue, ep) == LastBody(w.log, ep))
    && (forall ep :: PostsConserved(w, ep))
  }

  lemma LoadedIsFaithful(queue: seq<Entry>)
    requires Compact(queue)
    ensures Faithful(Loaded(queue))
  {
    assert [] + queue == queue;
  }

  lemma FailKeeps(w: World, e: Entry)
    requires Faithful(w)
    ensures Faithful(Step(w, Fail(e)))
  {
    var w' := Step(w, Fail(e));
    EnqueuedCompact(w.queue, e);
    forall ep | ep !in w'.stale ensures LastBody(w'.delivered + w'.queue, ep) == LastBody(w'.log, ep) {
      EnqueuedSays(w.queue, e, ep);
      LastBodyAppend(w.delivered, w'.queue, ep);
      LastBodyAppend(w.delivered, w.queue, ep);
      LastBodySnoc(w.queue, e, ep);
      LastBodySnoc(w.log, e, ep);
    }
    forall ep ensures PostsConserved(w', ep) {
      assert PostsConserved(w, ep);
      EnqueuedSays(w.queue, e, ep);
      PostsSnoc(w.queue, e, ep);
      PostsSnoc(w.log, e, ep);
    }
  }

  lemma DirectKeeps(w: World, e: Entry)
    requires Faithful(w)
    ensures Faithful(Step(w, Direct(e)))
  {
    var w' := Step(w, Direct(e));
    forall ep | ep !in w'.stale ensures LastBody(w'.delivered + w'.queue, ep) == LastBody(w'.log, ep) {
      LastBodyAppend(w'.delivered, w.queue, ep);
      LastBodyAppend(w.delivered, w.queue, ep);
      LastBodySnoc(w.delivered, e, ep);
      LastBodySnoc(w.log, e, ep);
    }
    forall ep ensures PostsConserved(w', ep) {
      assert PostsConserved(w, ep);
      PostsSnoc(w.delivered, e, ep);
      PostsSnoc(w.log, e, ep);
    }
  }

  lemma {:induction false} NotPatchedNoBody(queue: seq<Entry>, ep: string)
    ensures LastBody(queue, ep).Some? <==> ep in PatchedEndpoints(queue)
  {
    NoPatchNoBody(queue, ep);
    assert forall i :: 0 <= i < |queue| && queue[i].verb == "PATCH" ==> queue[i].endpoint in PatchedEndpoints(queue);
    if ep in PatchedEndpoints(queue) {
      var e :| e in queue && e.verb == "PATCH" && e.endpoint == ep;
      var i :| 0 <= i < |queue| && queue[i] == e;
      assert PatchTo(queue[i], ep);
    }
  }

  lemma {:induction false} DroppedLast(queue: seq<Entry>, outcomes: seq<Outcome>)
    requires |outcomes| == |queue| && queue != []
    ensures var n := |queue| - 1;
            outcomes[n] != Accepted && queue[n].retries + 1 >= MAX_RETRIES && queue[n].verb == "PATCH" ==>
              queue[n].endpoint in PatchedEndpoints(Dropped(queue, outcomes))
  {
    var n := |queue| - 1;
    if outcomes[n] != Accepted && queue[n].retries + 1 >= MAX_RETRIES {
      assert Dropped(queue, outcomes)[|Dropped(queue, outcomes)| - 1] == queue[n];
      assert queue[n] in Dropped(queue, outcomes);
    }
  }

  /** A flush splits the queue: the last PATCH of an endpoint is delivered, kept or dropped. */
  lemma {:induction false} FlushSplits(queue: seq<Entry>, outcomes: seq<Outcome>, ep: string)
    requires Compact(queue) && |outcomes| == |queue|
    requires ep !in PatchedEndpoints(Dropped(queue, outcomes))
    ensures var kept, sent := LastBody(Remaining(queue, outcomes), ep), LastBody(Delivered(queue, outcomes), ep);
            LastBody(queue, ep) == if kept.Some? then kept else sent
  {
    if queue != [] {
      var n := |queue| - 1;
      var q, o := queue[..n], outcomes[..n];
      assert PatchedEndpoints(Dropped(q, o)) <= PatchedEndpoints(Dropped(queue, outcomes));
      FlushSplits(q, o, ep);
      DroppedLast(queue, outcomes);
      LastBodySnoc(Remaining(q, o), Retried(queue[n]), ep);
      LastBodySnoc(Delivered(q, o), queue[n], ep);
      if PatchTo(queue[n], ep) {
        NoOtherPatch(queue, n, ep);
      }
    }
  }

  lemma {:induction false} FlushPosts(queue: seq<Entry>, outcomes: seq<Outcome>, ep: string)
    requires |outcomes| == |queue|
    ensures multiset(PostsTo(queue, ep)) ==
            multiset(PostsTo(Delivered(queue, outcomes), ep)) + multiset(PostsTo(Remaining(queue, outcomes), ep)) +
            multiset(PostsTo(Dropped(queue, outcomes), ep))
  {
    if queue != [] {
      var n := |queue| - 1;
      var q, o := queue[..n], outcomes[..n];
      FlushPosts(q, o, ep);
      PostsSnoc(Delivered(q, o), queue[n], ep);
      PostsSnoc(Remaining(q, o), Retried(queue[n]), ep);
      PostsSnoc(Dropped(q, o), queue[n], ep);
    }
  }

  lemma {:induction false} RemainingCompact(queue: seq<Entry>, outcomes: seq<Outcome>)
    requires Compact(queue) && |outcomes| == |queue|
    ensures Compact(Remaining(queue, outcomes))
    ensures forall e :: e in Remaining(queue, outcomes) && e.verb == "PATCH" ==> e.endpoint in PatchedEndpoints(queue)
  {
    if queue != [] {
      var n := |queue| - 1;
      RemainingCompact(queue[..n], outcomes[..n]);
      var before := Remaining(queue[..n], outcomes[..n]);
      assert queue == queue[..n] + [queue[n]];
      forall i | 0 <= i < |before| && before[i].verb == "PATCH" && queue[n].verb == "PATCH"
        ensures before[i].endpoint != queue[n].endpoint
      {
        assert before[i] in before;
        var e :| e in queue[..n] && e.verb == "PATCH" && e.endpoint == before[i].endpoint;
      }
      forall e | e in Remaining(queue, outcomes) && e.verb == "PATCH" ensures e.endpoint in PatchedEndpoints(queue) {
        if e in before {
          var p :| p in queue[..n] && p.verb == "PATCH" && p.endpoint == e.endpoint;
          assert p in queue;
        } else {
          assert queue[n] in queue;
        }
      }
    }
  }

  lemma FlushKeeps(w: World, outcomes: seq<Outcome>)
    requires Faithful(w) && |outcomes| == |w.queue|
    ensures Faithful(Step(w, Flush(outcomes)))
  {
    var w' := Step(w, Flush(outcomes));
    RemainingCompact(w.queue, outcomes);
    forall ep | ep !in w'.stale ensures LastBody(w'.delivered + w'.queue, ep) == LastBody(w'.log, ep) {
      FlushSplits(w.queue, outcomes, ep);
      LastBodyAppend(w'.delivered, w'.queue, ep);
      LastBodyAppend(w.delivered, Delivered(w.queue, outcomes), ep);
      LastBodyAppend(w.delivered, w.queue, ep);
    }
    forall ep ensures PostsConserved(w', ep) {
      assert PostsConserved(w, ep);
      FlushPosts(w.queue, outcomes, ep);
      PostsAppend(w.delivered, Delivered(w.queue, outcomes), ep);
      PostsAppend(w.lost, Dropped(w.queue, outcomes), ep);
    }
  }

  lemma ClearKeeps(w: World)
    requires Faithful(w)
    ensures Faithful(Step(w, Clear))
  {
    var w' := Step(w, Clear);
    forall ep | ep !in w'.stale ensures LastBody(w'.delivered + [], ep) == LastBody(w'.log, ep) {
      LastBodyAppend(w.delivered, w.queue, ep);
      LastBodyAppend(w.delivered, [], ep);
      NotPatchedNoBody(w.queue, ep);
    }
    forall ep ensures PostsConserved(w', ep) {
      assert PostsConserved(w, ep);
      PostsAppend(w.lost, w.queue, ep);
    }
  }

  lemma StepKeeps(w: World, event: Event)
    requires Faithful(w) && Enabled(w, event)
    ensures Faithful(Step(w, event))
  {
    match event
    case Fail(e) => FailKeeps(w, e);
    case Direct(e) => DirectKeeps(w, e);
    case Flush(outcomes) => FlushKeeps(w, outcomes);
    case Clear => ClearKeeps(w);
  }

  lemma {:induction false} RunsAreFaithful(worlds: seq<World>, events: seq<Event>, k: nat)
    requires IsRun(worlds, events) && k <= |events|
    ensures Faithful(worlds[k])
  {
    if k == 0 {
      LoadedIsFaithful(worlds[0].queue);
    } else {
      RunsAreFaithful(worlds, events, k - 1);
      StepKeeps(worlds[k - 1], events[k - 1]);
    }
  }

  /**
   Over every run of queued and direct requests, flushes with any mix of outcomes, and clears: the
   queue never holds two PATCHes for an endpoint, every posted record is on the server, waiting or
   lost, and once the queue is delivered each endpoint whose latest update was neither lost nor overtaken
   holds the document that the full log of requests would have produced.
   */
  lemma {:induction false} DeliveryMatchesLog<D(!new)>(worlds: seq<World>, events: seq<Event>, k: nat, patch: Patch<D>,
                                    doc: Option<D>, ep: string)
    requires IsRun(worlds, events) && k <= |events| && Absorbing(patch)
    ensures var w := worlds[k];
            && Compact(w.queue)
            && PostsConserved(w, ep)
            && (ep !in w.stale ==> Doc(patch, doc, w.delivered + w.queue, ep) == Doc(patch, doc, w.log, ep))
            && (ep !in w.stale && w.queue == [] ==> Doc(patch, doc, w.delivered, ep) == Doc(patch, doc, w.log, ep))
  {
    var w := worlds[k];
    RunsAreFaithful(worlds, events, k);
    DocIsLastBody(patch, doc, w.delivered + w.queue, ep);
    DocIsLastBody(patch, doc, w.log, ep);
    assert w.delivered + [] == w.delivered;
  }

  /** After a direct PATCH its endpoint is going to hold the latest body exactly when it was not overtaken. */
  lemma DirectArrivesExactly(w: World, e: Entry)
    requires e.verb == "PATCH"
    ensures var w' := Step(w, Direct(e));
            LastBody(w'.delivered + w'.queue, e.endpoint) == LastBody(w'.log, e.endpoint) <==> !IsOvertaken(w.queue, e)
  {
    LastBodyAppend(w.delivered + [e], w.queue, e.endpoint);
    LastBodySnoc(w.delivered, e, e.endpoint);
    LastBodySnoc(w.log, e, e.endpoint);
  }

  /** A PATCH waits, a newer one is sent at once, and the flush writes the older body over it. */
  lemma OlderPatchComesLate(older: Entry, newer: Entry)
    requires PatchTo(older, newer.endpoint) && PatchTo(newer, newer.endpoint) && older.body != newer.body
    ensures var events := [Fail(older), Direct(newer), Flush([Accepted])];
            var worlds := [Loaded([]), World([older], [], [older], [], {}),
                           World([older], [newer], [older, newer], [], {newer.endpoint}),
                           World([], [newer, older], [older, newer], [], {newer.endpoint})];
            && IsRun(worlds, events)
            && LastBody(worlds[3].delivered, newer.endpoint) == Some(older.body)
            && LastBody(worlds[3].log, newer.endpoint) == Some(newer.body)
  {
    QueueOfOne(older, newer);
    assert [] + [older] == [older] && [older] + [newer] == [older, newer] && [newer] + [older] == [newer, older];
    LastBodySnoc([older], newer, newer.endpoint);
    LastBodySnoc([newer], older, newer.endpoint);
  }

  lemma QueueOfOne(older: Entry, newer: Entry)
    requires PatchTo(older, newer.endpoint) && PatchTo(newer, newer.endpoint) && older.body != newer.body
    ensures Enqueued([], older) == [older] && IsOvertaken([older], newer)
    ensures Delivered([older], [Accepted]) == [older] && Remaining([older], [Accepted]) == []
    ensures Dropped([older], [Accepted]) == [] && PatchedEndpoints([]) == {}
  {
    LastBodySnoc([], older, newer.endpoint);
    assert [] + [older] == [older];
  }

  /**
   A direct PATCH while an older one waits: on an overwriting server the waiting body comes out on top,
   so the result is right exactly when nothing waits for the endpoint or both bodies agree.
   */
  lemma {:induction false} DirectPatchOvertaken(queue: seq<Entry>, e: Entry, doc: Option<Option<string>>)
    requires Compact(queue) && e.verb == "PATCH"
    ensures Doc(Overwrite(), doc, [e] + queue, e.endpoint) == Doc(Overwrite(), doc, queue + [e], e.endpoint)
            <==> LastBody(queue, e.endpoint) in {None, Some(e.body)}
  {
    DocIsLastBody(Overwrite(), doc, [e] + queue, e.endpoint);
    DocIsLastBody(Overwrite(), doc, queue + [e], e.endpoint);
    LastBodyAppend([e], queue, e.endpoint);
    LastBodySnoc(queue, e, e.endpoint);
    LastBodySnoc([], e, e.endpoint);
    assert [] + [e] == [e];
  }
}
