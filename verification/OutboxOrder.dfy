/**
 The order in which the outbox delivers the posts to one endpoint, against the order in which they were
 requested. A flush goes on after a refused entry, and a request that is sent at once does not wait for the
 queue, so the order is not kept in general; the steps that keep it are named here.
 */
module OutboxOrder {
  import opened Options
  import opened Outbox
  import opened Seqs

  // ---------------------------------------------------------------- sequences in order

  /** s is t with some elements left out. */
  ghost predicate Thinned<T>(s: seq<T>, t: seq<T>)
  {
    if t == [] then s == []
    else
      var n := |t| - 1;
      Thinned(s, t[..n]) || (s != [] && s[|s| - 1] == t[n] && Thinned(s[..|s| - 1], t[..n]))
  }

  lemma {:induction false} ThinnedFits<T>(s: seq<T>, t: seq<T>)
    requires Thinned(s, t)
    ensures |s| <= |t| && (|s| == |t| ==> s == t)
    ensures forall x :: x in s ==> x in t
  {
    if t != [] {
      var n := |t| - 1;
      assert t == t[..n] + [t[n]];
      if Thinned(s, t[..n]) {
        ThinnedFits(s, t[..n]);
      } else {
        ThinnedFits(s[..|s| - 1], t[..n]);
        assert s == s[..|s| - 1] + [s[|s| - 1]];
      }
    }
  }

  lemma {:induction false} ThinnedEmpty<T>(t: seq<T>)
    ensures Thinned([], t)
  {
    if t != [] { ThinnedEmpty(t[..|t| - 1]); }
  }

  lemma {:induction false} ThinnedSelf<T>(t: seq<T>)
    ensures Thinned(t, t)
  {
    if t != [] { ThinnedSelf(t[..|t| - 1]); }
  }

  lemma {:induction false} ThinnedSnoc<T>(s: seq<T>, t: seq<T>, x: T)
    requires Thinned(s, t)
    ensures Thinned(s, t + [x]) && Thinned(s + [x], t + [x])
  {
    assert (t + [x])[..|t|] == t && (s + [x])[..|s|] == s;
  }

  lemma {:induction false} ThinnedTrans<T>(r: seq<T>, s: seq<T>, t: seq<T>)
    requires Thinned(r, s) && Thinned(s, t)
    ensures Thinned(r, t)
    decreases |t|
  {
    if t != [] {
      var n := |t| - 1;
      if Thinned(s, t[..n]) {
        ThinnedTrans(r, s, t[..n]);
      } else if Thinned(r, s[..|s| - 1]) {
        ThinnedTrans(r, s[..|s| - 1], t[..n]);
      } else {
        ThinnedTrans(r[..|r| - 1], s[..|s| - 1], t[..n]);
      }
    }
  }

  lemma {:induction false} ThinnedAppend<T>(a: seq<T>, s: seq<T>, t: seq<T>)
    requires Thinned(s, t)
    ensures Thinned(a + s, a + t)
  {
    if t == [] {
      assert a + s == a + t == a;
      ThinnedSelf(a);
    } else {
      var n := |t| - 1;
      assert a + t == (a + t[..n]) + [t[n]];
      if Thinned(s, t[..n]) {
        ThinnedAppend(a, s, t[..n]);
        ThinnedSnoc(a + s, a + t[..n], t[n]);
      } else {
        var m := |s| - 1;
        ThinnedAppend(a, s[..m], t[..n]);
        ThinnedSnoc(a + s[..m], a + t[..n], t[n]);
        assert a + s == (a + s[..m]) + [s[m]];
      }
    }
  }

  lemma {:induction false} ThinnedKeepsBefore<T>(s: seq<T>, t: seq<T>, x: T, y: T)
    requires Thinned(s, t) && Before(s, x, y)
    ensures Before(t, x, y)
  {
    if t != [] {
      var n := |t| - 1;
      assert t == t[..n] + [t[n]];
      BeforeSnoc(t[..n], t[n], x, y);
      if Thinned(s, t[..n]) {
        ThinnedKeepsBefore(s, t[..n], x, y);
      } else {
        var m := |s| - 1;
        assert s == s[..m] + [s[m]];
        BeforeSnoc(s[..m], s[m], x, y);
        if Before(s[..m], x, y) {
          ThinnedKeepsBefore(s[..m], t[..n], x, y);
        } else {
          ThinnedFits(s[..m], t[..n]);
        }
      }
    }
  }

  // ---------------------------------------------------------------- steps that keep the order

  /** What the server has of the endpoint, followed by what waits. */
  ghost function Line(w: World, ep: string): seq<Posted>
  {
    PostsTo(w.delivered, ep) + PostsTo(w.queue, ep)
  }

  /** Delivered and waiting posts stand as they were requested, apart from those lost. */
  ghost predicate InOrder(w: World, ep: string)
  {
    Thinned(Line(w, ep), PostsTo(w.log, ep))
  }

  ghost predicate KeptAt(queue: seq<Entry>, outcomes: seq<Outcome>, i: nat)
    requires |outcomes| == |queue| && i < |queue|
  {
    outcomes[i] != Accepted && queue[i].retries + 1 < MAX_RETRIES
  }

  /** The flush delivers a post to the endpoint although it keeps an earlier one. */
  ghost predicate Overtakes(queue: seq<Entry>, outcomes: seq<Outcome>, ep: string, i: nat, j: nat)
    requires |outcomes| == |queue|
  {
    i < j < |queue| && PostTo(queue[i], ep) && PostTo(queue[j], ep) && KeptAt(queue, outcomes, i) &&
    outcomes[j] == Accepted
  }

  ghost predicate NoneOvertakes(queue: seq<Entry>, outcomes: seq<Outcome>, ep: string)
    requires |outcomes| == |queue|
  {
    forall i: nat, j: nat :: !Overtakes(queue, outcomes, ep, i, j)
  }

  /**
   A post is sent at once only when none waits for its endpoint, and a flush delivers none behind one that
   it keeps.
   */
  ghost predicate Orderly(w: World, event: Event, ep: string)
    requires Enabled(w, event)
  {
    match event
    case Fail(e) => true
    case Direct(e) => PostTo(e, ep) ==> PostsTo(w.queue, ep) == []
    case Flush(outcomes) => NoneOvertakes(w.queue, outcomes, ep)
    case Clear => true
  }

  lemma {:induction false} PostsAre(entries: seq<Entry>, ep: string, i: nat)
    requires i < |entries| && PostTo(entries[i], ep)
    ensures Record(entries[i]) in PostsTo(entries, ep)
  {
    var n := |entries| - 1;
    if i < n { PostsAre(entries[..n], ep, i); }
  }

  lemma {:induction false} NoPosts(entries: seq<Entry>, ep: string)
    requires forall i :: 0 <= i < |entries| ==> !PostTo(entries[i], ep)
    ensures PostsTo(entries, ep) == []
  {
    if entries != [] { NoPosts(entries[..|entries| - 1], ep); }
  }

  lemma DeliveredLast(queue: seq<Entry>, outcomes: seq<Outcome>, ep: string)
    requires |outcomes| == |queue| && queue != []
    ensures var n := |queue| - 1;
            PostsTo(Delivered(queue, outcomes), ep) == PostsTo(Delivered(queue[..n], outcomes[..n]), ep) +
              if PostTo(queue[n], ep) && outcomes[n] == Accepted then [Record(queue[n])] else []
  {
    var n := |queue| - 1;
    PostsSnoc(Delivered(queue[..n], outcomes[..n]), queue[n], ep);
  }

  lemma RemainingLast(queue: seq<Entry>, outcomes: seq<Outcome>, ep: string)
    requires |outcomes| == |queue| && queue != []
    ensures var n := |queue| - 1;
            PostsTo(Remaining(queue, outcomes), ep) == PostsTo(Remaining(queue[..n], outcomes[..n]), ep) +
              if PostTo(queue[n], ep) && KeptAt(queue, outcomes, n) then [Record(queue[n])] else []
  {
    var n := |queue| - 1;
    PostsSnoc(Remaining(queue[..n], outcomes[..n]), Retried(queue[n]), ep);
  }

  lemma SentLonger(queue: seq<Entry>, outcomes: seq<Outcome>, ep: string, x: Posted)
    requires |outcomes| == |queue| && queue != []
    ensures var n := |queue| - 1;
            x in PostsTo(Delivered(queue[..n], outcomes[..n]), ep) ||
              (PostTo(queue[n], ep) && outcomes[n] == Accepted && x == Record(queue[n])) ==>
            x in PostsTo(Delivered(queue, outcomes), ep)
  {
    DeliveredLast(queue, outcomes, ep);
  }

  lemma {:induction false} SentPost(queue: seq<Entry>, outcomes: seq<Outcome>, ep: string, i: nat)
    requires |outcomes| == |queue| && i < |queue| && PostTo(queue[i], ep) && outcomes[i] == Accepted
    ensures Record(queue[i]) in PostsTo(Delivered(queue, outcomes), ep)
  {
    var n := |queue| - 1;
    if i < n { SentPost(queue[..n], outcomes[..n], ep, i); }
    SentLonger(queue, outcomes, ep, Record(queue[i]));
  }

  lemma KeptLonger(queue: seq<Entry>, outcomes: seq<Outcome>, ep: string, x: Posted)
    requires |outcomes| == |queue| && queue != []
    ensures var n := |queue| - 1;
            x in PostsTo(Remaining(queue[..n], outcomes[..n]), ep) ||
              (PostTo(queue[n], ep) && KeptAt(queue, outcomes, n) && x == Record(queue[n])) ==>
            x in PostsTo(Remaining(queue, outcomes), ep)
  {
    RemainingLast(queue, outcomes, ep);
  }

  lemma {:induction false} KeptPost(queue: seq<Entry>, outcomes: seq<Outcome>, ep: string, i: nat)
    requires |outcomes| == |queue| && i < |queue| && PostTo(queue[i], ep) && KeptAt(queue, outcomes, i)
    ensures Record(queue[i]) in PostsTo(Remaining(queue, outcomes), ep)
  {
    var n := |queue| - 1;
    if i < n { KeptPost(queue[..n], outcomes[..n], ep, i); }
    KeptLonger(queue, outcomes, ep, Record(queue[i]));
  }

  ghost predicate KeepsNone(queue: seq<Entry>, outcomes: seq<Outcome>, ep: string)
    requires |outcomes| == |queue|
  {
    forall i: nat :: i < |queue| && PostTo(queue[i], ep) ==> !KeptAt(queue, outcomes, i)
  }

  lemma {:induction false} KeptFrom(queue: seq<Entry>, outcomes: seq<Outcome>, ep: string)
    requires |outcomes| == |queue| && KeepsNone(queue, outcomes, ep)
    ensures PostsTo(Remaining(queue, outcomes), ep) == []
  {
    if queue != [] {
      var n := |queue| - 1;
      forall i: nat | i < n && PostTo(queue[..n][i], ep) ensures !KeptAt(queue[..n], outcomes[..n], i) {
        assert PostTo(queue[i], ep) && !KeptAt(queue, outcomes, i);
      }
      KeptFrom(queue[..n], outcomes[..n], ep);
      RemainingLast(queue, outcomes, ep);
    }
  }

  lemma NoneBefore(queue: seq<Entry>, outcomes: seq<Outcome>, ep: string)
    requires |outcomes| == |queue| && queue != [] && NoneOvertakes(queue, outcomes, ep)
    ensures var n := |queue| - 1;
            && NoneOvertakes(queue[..n], outcomes[..n], ep)
            && (PostTo(queue[n], ep) && outcomes[n] == Accepted ==> KeepsNone(queue[..n], outcomes[..n], ep))
  {
    var n := |queue| - 1;
    forall i: nat, j: nat ensures !Overtakes(queue[..n], outcomes[..n], ep, i, j) {
      assert !Overtakes(queue, outcomes, ep, i, j);
    }
    if PostTo(queue[n], ep) && outcomes[n] == Accepted {
      forall i: nat | i < n && PostTo(queue[..n][i], ep) ensures !KeptAt(queue[..n], outcomes[..n], i) {
        assert !Overtakes(queue, outcomes, ep, i, n);
      }
    }
  }

  /** A line grows by one post at its end, or before an empty rest. */
  lemma {:induction false} LineGrows(sent: seq<Posted>, kept: seq<Posted>, all: seq<Posted>, p: Posted)
    requires Thinned(sent + kept, all)
    ensures Thinned(sent + kept, all + [p]) && Thinned(sent + (kept + [p]), all + [p])
    ensures kept == [] ==> Thinned(sent + [p] + kept, all + [p])
  {
    ThinnedSnoc(sent + kept, all, p);
    assert sent + (kept + [p]) == sent + kept + [p];
    assert kept == [] ==> sent + [p] + kept == sent + kept + [p];
  }

  /** An orderly flush only thins out the posts that waited. */
  lemma {:induction false} FlushThins(queue: seq<Entry>, outcomes: seq<Outcome>, ep: string)
    requires |outcomes| == |queue| && NoneOvertakes(queue, outcomes, ep)
    ensures Thinned(PostsTo(Delivered(queue, outcomes), ep) + PostsTo(Remaining(queue, outcomes), ep), PostsTo(queue, ep))
  {
    if queue != [] {
      var n := |queue| - 1;
      var q, o := queue[..n], outcomes[..n];
      NoneBefore(queue, outcomes, ep);
      FlushThins(q, o, ep);
      DeliveredLast(queue, outcomes, ep);
      RemainingLast(queue, outcomes, ep);
      var sent, kept := PostsTo(Delivered(q, o), ep), PostsTo(Remaining(q, o), ep);
      LineGrows(sent, kept, PostsTo(q, ep), Record(queue[n]));
      if PostTo(queue[n], ep) && outcomes[n] == Accepted { KeptFrom(q, o, ep); }
      assert sent + [] == sent && kept + [] == kept;
    }
  }

  lemma FailKeepsOrder(w: World, e: Entry, ep: string)
    requires InOrder(w, ep)
    ensures InOrder(Step(w, Fail(e)), ep)
  {
    var sent, wait := PostsTo(w.delivered, ep), PostsTo(w.queue, ep);
    EnqueuedSays(w.queue, e, ep);
    PostsSnoc(w.queue, e, ep);
    PostsSnoc(w.log, e, ep);
    if PostTo(e, ep) {
      ThinnedSnoc(Line(w, ep), PostsTo(w.log, ep), Record(e));
      assert sent + (wait + [Record(e)]) == sent + wait + [Record(e)];
    } else {
      assert wait + [] == wait && PostsTo(w.log, ep) + [] == PostsTo(w.log, ep);
    }
  }

  lemma DirectKeepsOrder(w: World, e: Entry, ep: string)
    requires InOrder(w, ep) && Enabled(w, Direct(e)) && Orderly(w, Direct(e), ep)
    ensures InOrder(Step(w, Direct(e)), ep)
  {
    PostsSnoc(w.delivered, e, ep);
    PostsSnoc(w.log, e, ep);
    LineGrows(PostsTo(w.delivered, ep), PostsTo(w.queue, ep), PostsTo(w.log, ep), Record(e));
  }

  lemma FlushKeepsOrder(w: World, outcomes: seq<Outcome>, ep: string)
    requires InOrder(w, ep) && |outcomes| == |w.queue| && NoneOvertakes(w.queue, outcomes, ep)
    ensures InOrder(Step(w, Flush(outcomes)), ep)
  {
    var sent, wait := PostsTo(w.delivered, ep), PostsTo(w.queue, ep);
    var now, kept := PostsTo(Delivered(w.queue, outcomes), ep), PostsTo(Remaining(w.queue, outcomes), ep);
    PostsAppend(w.delivered, Delivered(w.queue, outcomes), ep);
    FlushThins(w.queue, outcomes, ep);
    ThinnedAppend(sent, now + kept, wait);
    ThinnedTrans(sent + (now + kept), sent + wait, PostsTo(w.log, ep));
    assert sent + now + kept == sent + (now + kept);
  }

  lemma ClearKeepsOrder(w: World, ep: string)
    requires InOrder(w, ep)
    ensures InOrder(Step(w, Clear), ep)
  {
    var sent, wait := PostsTo(w.delivered, ep), PostsTo(w.queue, ep);
    ThinnedEmpty(wait);
    ThinnedAppend(sent, [], wait);
    ThinnedTrans(sent + [], sent + wait, PostsTo(w.log, ep));
  }

  lemma OrderlyStepKeeps(w: World, event: Event, ep: string)
    requires InOrder(w, ep) && Enabled(w, event) && Orderly(w, event, ep)
    ensures InOrder(Step(w, event), ep)
  {
    match event
    case Fail(e) => FailKeepsOrder(w, e, ep);
    case Direct(e) => DirectKeepsOrder(w, e, ep);
    case Flush(outcomes) => FlushKeepsOrder(w, outcomes, ep);
    case Clear => ClearKeepsOrder(w, ep);
  }

  /** As long as every step is orderly, nothing changes places. */
  lemma {:induction false} OrderlyRunsKeepOrder(worlds: seq<World>, events: seq<Event>, k: nat, ep: string)
    requires IsRun(worlds, events) && k <= |events|
    requires forall i :: 0 <= i < k ==> Orderly(worlds[i], events[i], ep)
    ensures InOrder(worlds[k], ep)
  {
    if k == 0 {
      var posts := PostsTo(worlds[0].queue, ep);
      ThinnedSelf(posts);
      assert [] + posts == posts;
    } else {
      OrderlyRunsKeepOrder(worlds, events, k - 1, ep);
      OrderlyStepKeeps(worlds[k - 1], events[k - 1], ep);
    }
  }

  // ---------------------------------------------------------------- steps that break it

  /** y was delivered ahead of x, which comes later, still waits, or is lost. */
  ghost predicate Overtaken(w: World, ep: string, x: Posted, y: Posted)
  {
    var sent := PostsTo(w.delivered, ep);
    Before(sent, y, x) || (y in sent && x in PostsTo(w.queue, ep)) || x in PostsTo(w.lost, ep)
  }

  lemma {:induction false} QueueBefore(queue: seq<Entry>, ep: string, i: nat, j: nat)
    requires i < j < |queue| && PostTo(queue[i], ep) && PostTo(queue[j], ep)
    ensures Before(PostsTo(queue, ep), Record(queue[i]), Record(queue[j]))
  {
    var n := |queue| - 1;
    var before := PostsTo(queue[..n], ep);
    assert queue == queue[..n] + [queue[n]];
    PostsSnoc(queue[..n], queue[n], ep);
    BeforeSnoc(before, Record(queue[n]), Record(queue[i]), Record(queue[j]));
    if j == n {
      PostsAre(queue[..n], ep, i);
    } else {
      QueueBefore(queue[..n], ep, i, j);
    }
  }

  /** A step that is not orderly delivers some post ahead of an earlier one. */
  lemma DisorderlyStep(w: World, event: Event, ep: string) returns (x: Posted, y: Posted)
    requires InOrder(w, ep) && Enabled(w, event) && !Orderly(w, event, ep)
    ensures y in PostsTo(Step(w, event).delivered, ep) && x in PostsTo(Step(w, event).queue, ep)
    ensures Before(PostsTo(Step(w, event).log, ep), x, y)
  {
    match event
    case Direct(e) =>
      x, y := PostsTo(w.queue, ep)[0], Record(e);
      PostsSnoc(w.delivered, e, ep);
      PostsSnoc(w.log, e, ep);
      ThinnedFits(Line(w, ep), PostsTo(w.log, ep));
      assert x in Line(w, ep);
      BeforeSnoc(PostsTo(w.log, ep), y, x, y);
    case Flush(outcomes) =>
      var i: nat, j: nat :| Overtakes(w.queue, outcomes, ep, i, j);
      x, y := Record(w.queue[i]), Record(w.queue[j]);
      KeptPost(w.queue, outcomes, ep, i);
      SentPost(w.queue, outcomes, ep, j);
      PostsAppend(w.delivered, Delivered(w.queue, outcomes), ep);
      QueueBefore(w.queue, ep, i, j);
      BeforeAppend(PostsTo(w.delivered, ep), PostsTo(w.queue, ep), x, y);
      ThinnedKeepsBefore(Line(w, ep), PostsTo(w.log, ep), x, y);
  }

  /** Once overtaken, always overtaken. */
  lemma OvertakenStays(w: World, event: Event, ep: string, x: Posted, y: Posted)
    requires Enabled(w, event) && Overtaken(w, ep, x, y)
    ensures Overtaken(Step(w, event), ep, x, y)
  {
    var sent := PostsTo(w.delivered, ep);
    match event
    case Fail(e) =>
      EnqueuedSays(w.queue, e, ep);
      PostsSnoc(w.queue, e, ep);
    case Direct(e) =>
      PostsSnoc(w.delivered, e, ep);
      BeforeSnoc(sent, Record(e), y, x);
    case Flush(outcomes) =>
      var now := PostsTo(Delivered(w.queue, outcomes), ep);
      PostsAppend(w.delivered, Delivered(w.queue, outcomes), ep);
      PostsAppend(w.lost, Dropped(w.queue, outcomes), ep);
      FlushPosts(w.queue, outcomes, ep);
      if x in PostsTo(w.queue, ep) { Accounted(w.queue, outcomes, ep, x); }
      if Before(sent, y, x) || (y in sent && x in now) { BeforeAppend(sent, now, y, x); }
    case Clear =>
      PostsAppend(w.lost, w.queue, ep);
  }

  lemma {:induction false} Accounted(queue: seq<Entry>, outcomes: seq<Outcome>, ep: string, x: Posted)
    requires |outcomes| == |queue| && x in PostsTo(queue, ep)
    ensures x in PostsTo(Delivered(queue, outcomes), ep) || x in PostsTo(Remaining(queue, outcomes), ep) ||
            x in PostsTo(Dropped(queue, outcomes), ep)
  {
    FlushPosts(queue, outcomes, ep);
    assert x in multiset(PostsTo(queue, ep));
  }

  lemma {:induction false} LogGrows(w: World, event: Event, ep: string)
    requires Enabled(w, event)
    ensures PostsTo(w.log, ep) <= PostsTo(Step(w, event).log, ep)
  {
    match event
    case Fail(e) => PostsSnoc(w.log, e, ep);
    case Direct(e) => PostsSnoc(w.log, e, ep);
    case Flush(outcomes) =>
    case Clear =>
  }

  lemma BeforeLonger<T>(s: seq<T>, t: seq<T>, x: T, y: T)
    requires s <= t && Before(s, x, y)
    ensures Before(t, x, y)
  {
    var i, j :| 0 <= i < j < |s| && s[i] == x && s[j] == y;
    assert t[i] == x && t[j] == y;
  }

  ghost predicate FirstDisorder(worlds: seq<World>, events: seq<Event>, m: nat, ep: string)
    requires IsRun(worlds, events)
  {
    && m < |events| && !Orderly(worlds[m], events[m], ep)
    && forall i :: 0 <= i < m ==> Orderly(worlds[i], events[i], ep)
  }

  /** After the first disorderly step some post is overtaken at every later moment. */
  lemma {:induction false} OvertakenEverAfter(worlds: seq<World>, events: seq<Event>, m: nat, k: nat, ep: string)
    returns (x: Posted, y: Posted)
    requires IsRun(worlds, events) && FirstDisorder(worlds, events, m, ep) && m < k <= |events|
    ensures Overtaken(worlds[k], ep, x, y) && Before(PostsTo(worlds[k].log, ep), x, y)
    decreases k
  {
    if k == m + 1 {
      OrderlyRunsKeepOrder(worlds, events, m, ep);
      x, y := DisorderlyStep(worlds[m], events[m], ep);
    } else {
      x, y := OvertakenEverAfter(worlds, events, m, k - 1, ep);
      OvertakenStays(worlds[k - 1], events[k - 1], ep, x, y);
      LogGrows(worlds[k - 1], events[k - 1], ep);
      BeforeLonger(PostsTo(worlds[k - 1].log, ep), PostsTo(worlds[k].log, ep), x, y);
    }
  }

  lemma {:induction false} FindDisorder(worlds: seq<World>, events: seq<Event>, k: nat, ep: string) returns (m: nat)
    requires IsRun(worlds, events) && k <= |events|
    requires !(forall i :: 0 <= i < k ==> Orderly(worlds[i], events[i], ep))
    ensures m < k && FirstDisorder(worlds, events, m, ep)
  {
    if forall i :: 0 <= i < k - 1 ==> Orderly(worlds[i], events[i], ep) {
      m := k - 1;
    } else {
      m := FindDisorder(worlds, events, k - 1, ep);
    }
  }

  // ---------------------------------------------------------------- exactly when the order is kept

  /**
   When nothing waits and nothing was lost, the server holds the posts to an endpoint in the order of the
   requests exactly when every step so far was orderly.
   */
  lemma {:induction false} PostsArriveInOrderExactly(worlds: seq<World>, events: seq<Event>, k: nat, ep: string)
    requires IsRun(worlds, events) && k <= |events| && Distinct(PostsTo(worlds[k].log, ep))
    requires PostsTo(worlds[k].queue, ep) == [] && PostsTo(worlds[k].lost, ep) == []
    ensures PostsTo(worlds[k].delivered, ep) == PostsTo(worlds[k].log, ep) <==>
            forall i :: 0 <= i < k ==> Orderly(worlds[i], events[i], ep)
  {
    var w := worlds[k];
    if forall i :: 0 <= i < k ==> Orderly(worlds[i], events[i], ep) {
      OrderlyRunsKeepOrder(worlds, events, k, ep);
      AllArrived(worlds, events, k, ep);
      ThinnedFits(Line(w, ep), PostsTo(w.log, ep));
    } else {
      var m := FindDisorder(worlds, events, k, ep);
      var x, y := OvertakenEverAfter(worlds, events, m, k, ep);
      OneWay(PostsTo(w.log, ep), x, y);
    }
  }

  lemma {:induction false} AllArrived(worlds: seq<World>, events: seq<Event>, k: nat, ep: string)
    requires IsRun(worlds, events) && k <= |events|
    requires PostsTo(worlds[k].queue, ep) == [] && PostsTo(worlds[k].lost, ep) == []
    ensures |PostsTo(worlds[k].delivered, ep)| == |PostsTo(worlds[k].log, ep)|
    ensures Line(worlds[k], ep) == PostsTo(worlds[k].delivered, ep)
  {
    var w := worlds[k];
    RunsAreFaithful(worlds, events, k);
    assert PostsConserved(w, ep);
    assert |multiset(PostsTo(w.log, ep))| == |multiset(PostsTo(w.delivered, ep))|;
  }

  ghost predicate AlwaysInOrder(worlds: seq<World>, ep: string)
  {
    forall k :: 0 <= k < |worlds| ==> InOrder(worlds[k], ep)
  }

  /** Delivered and waiting posts are in order at every moment of a run exactly when every step is orderly. */
  lemma {:induction false} OrderKeptExactly(worlds: seq<World>, events: seq<Event>, ep: string)
    requires IsRun(worlds, events) && Distinct(PostsTo(worlds[|events|].log, ep))
    ensures AlwaysInOrder(worlds, ep) <==> forall i :: 0 <= i < |events| ==> Orderly(worlds[i], events[i], ep)
  {
    if forall i :: 0 <= i < |events| ==> Orderly(worlds[i], events[i], ep) {
      forall k | 0 <= k < |worlds| ensures InOrder(worlds[k], ep) {
        OrderlyRunsKeepOrder(worlds, events, k, ep);
      }
    } else {
      var m := FindDisorder(worlds, events, |events|, ep);
      OrderlyRunsKeepOrder(worlds, events, m, ep);
      var x, y := DisorderlyStep(worlds[m], events[m], ep);
      var w := worlds[m + 1];
      LogsGrow(worlds, events, m + 1, |events|, ep);
      OneWay(PostsTo(w.log, ep), x, y);
      BeforeAppend(PostsTo(w.delivered, ep), PostsTo(w.queue, ep), y, x);
      if InOrder(w, ep) { ThinnedKeepsBefore(Line(w, ep), PostsTo(w.log, ep), y, x); }
    }
  }

  lemma {:induction false} LogsGrow(worlds: seq<World>, events: seq<Event>, i: nat, k: nat, ep: string)
    requires IsRun(worlds, events) && i <= k <= |events|
    ensures PostsTo(worlds[i].log, ep) <= PostsTo(worlds[k].log, ep)
    decreases k - i
  {
    if i < k {
      LogGrows(worlds[i], events[i], ep);
      LogsGrow(worlds, events, i + 1, k, ep);
    }
  }

  // ---------------------------------------------------------------- a partial flush

  lemma RefusedOfOne(a: Entry)
    requires a.retries == 0
    ensures Remaining([a], [Refused]) == [Retried(a)]
    ensures Delivered([a], [Refused]) == [] && Dropped([a], [Refused]) == []
  {
  }

  lemma FlushOfTwo(a: Entry, b: Entry)
    requires a.retries == 0
    ensures Remaining([a, b], [Refused, Accepted]) == [Retried(a)]
    ensures Delivered([a, b], [Refused, Accepted]) == [b]
    ensures Dropped([a, b], [Refused, Accepted]) == []
  {
    RefusedOfOne(a);
    assert [a, b][..1] == [a] && [Refused, Accepted][..1] == [Refused];
  }

  lemma FlushOfOne(a: Entry)
    ensures Remaining([a], [Accepted]) == [] && Delivered([a], [Accepted]) == [a] && Dropped([a], [Accepted]) == []
  {
  }

  lemma {:induction false} PostsOfTwo(a: Entry, b: Entry, ep: string)
    requires PostTo(a, ep) && PostTo(b, ep)
    ensures PostsTo([a, b], ep) == [Record(a), Record(b)]
  {
    assert [a, b][..1] == [a] && PostsTo([a], ep) == [Record(a)];
  }

  lemma PostQueued(w: World, e: Entry)
    requires e.verb != "PATCH"
    ensures Step(w, Fail(e)) == w.(queue := w.queue + [e], log := w.log + [e])
  {
  }

  lemma FirstFlush(a: Entry, b: Entry)
    requires a.retries == 0
    ensures var w := World([a, b], [], [a, b], [], {});
            Step(w, Flush([Refused, Accepted])) == World([Retried(a)], [b], [a, b], [], {})
  {
    FlushOfTwo(a, b);
    assert [] + [b] == [b] && PatchedEndpoints([]) == {};
  }

  lemma SecondFlush(a: Entry, b: Entry)
    ensures var w := World([Retried(a)], [b], [a, b], [], {});
            Step(w, Flush([Accepted])) == World([], [b, Retried(a)], [a, b], [], {})
  {
    FlushOfOne(Retried(a));
    assert [b] + [Retried(a)] == [b, Retried(a)] && PatchedEndpoints([]) == {};
  }

  /** Two posts are queued, the flush has the first refused and the second taken, the next delivers the first. */
  ghost function Reordering(a: Entry, b: Entry): seq<World>
  {
    [Loaded([]), World([a], [], [a], [], {}), World([a, b], [], [a, b], [], {}),
     World([Retried(a)], [b], [a, b], [], {}), World([], [b, Retried(a)], [a, b], [], {})]
  }

  lemma ReorderingIsRun(a: Entry, b: Entry)
    requires a.verb != "PATCH" && b.verb != "PATCH" && a.retries == 0
    ensures IsRun(Reordering(a, b), [Fail(a), Fail(b), Flush([Refused, Accepted]), Flush([Accepted])])
  {
    var worlds := Reordering(a, b);
    PostQueued(worlds[0], a);
    PostQueued(worlds[1], b);
    assert [] + [a] == [a] && [a] + [b] == [a, b];
    FirstFlush(a, b);
    SecondFlush(a, b);
  }

  /** Nothing is lost, but the posts arrive in the other order. */
  lemma {:induction false} PartialFlushReorders(a: Entry, b: Entry, ep: string)
    requires PostTo(a, ep) && PostTo(b, ep) && a.retries == 0
    ensures IsRun(Reordering(a, b), [Fail(a), Fail(b), Flush([Refused, Accepted]), Flush([Accepted])])
    ensures var w := Reordering(a, b)[4];
            && w.queue == [] && w.lost == [] && PostsTo(w.log, ep) == [Record(a), Record(b)]
            && PostsTo(w.delivered, ep) == [Record(b), Record(a)]
  {
    ReorderingIsRun(a, b);
    PostsOfTwo(a, b, ep);
    PostsOfTwo(b, Retried(a), ep);
  }
}
