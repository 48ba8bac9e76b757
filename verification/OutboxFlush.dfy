/**
 A flush while requests go on. The flush walks over the array that holds the queue and waits for the server
 at every entry; in the meantime entries may be queued, and other requests reach the server. A POST is pushed
 onto the queue's array, and is walked over too as long as that is still the same array. A PATCH, or a clear,
 puts a new array in its place, and at its end the flush puts what it kept in the place of that. A second flush
 that starts in the meantime is the subject of OutboxOverlap.
 */
module OutboxFlush {
  import opened Options
  import opened Outbox

  // ---------------------------------------------------------------- the steps of a flush

  /** The array walked over and the position in it, what happened so far, and the new queue if there is one. */
  datatype Flushing = Flushing(items: seq<Entry>, pos: nat, kept: seq<Entry>, sent: seq<Entry>, dropped: seq<Entry>,
                               current: Option<seq<Entry>>)

  datatype Move =
    | Handled(outcome: Outcome)   // the server's answer for the entry at the position
    | Queued(e: Entry)            // a request fails and is queued
    | Sent(e: Entry)              // a request that the server takes at once
    | Cleared

  ghost function Begin(queue: seq<Entry>): Flushing
  {
    Flushing(queue, 0, [], [], [], None)
  }

  ghost function Waiting(f: Flushing): seq<Entry>
  {
    if f.current.Some? then f.current.value else f.items
  }

  ghost predicate Over(f: Flushing)
  {
    f.pos == |f.items|
  }

  ghost function Next(f: Flushing, m: Move): Flushing
    requires f.pos < |f.items|
  {
    match m
    case Handled(outcome) =>
      var e := f.items[f.pos];
      if outcome == Accepted then f.(pos := f.pos + 1, sent := f.sent + [e])
      else if e.retries + 1 < MAX_RETRIES then f.(pos := f.pos + 1, kept := f.kept + [Retried(e)])
      else f.(pos := f.pos + 1, dropped := f.dropped + [e])
    case Queued(e) =>
      if e.verb == "PATCH" || f.current.Some? then f.(current := Some(Enqueued(Waiting(f), e)))
      else f.(items := f.items + [e])
    case Sent(_) => f
    case Cleared => f.(current := Some([]))
  }

  ghost function Init(moves: seq<Move>): seq<Move>
    requires moves != []
  {
    moves[..|moves| - 1]
  }

  ghost function Last(moves: seq<Move>): Move
    requires moves != []
  {
    moves[|moves| - 1]
  }

  /** The flush after the moves; None when it was over before the last of them. */
  ghost function State(queue: seq<Entry>, moves: seq<Move>): (r: Option<Flushing>)
    ensures r.Some? ==> r.value.pos <= |r.value.items|
  {
    if moves == [] then Some(Begin(queue))
    else
      var before := State(queue, Init(moves));
      if before.Some? && before.value.pos < |before.value.items| then Some(Next(before.value, Last(moves))) else None
  }

  ghost predicate Ends(queue: seq<Entry>, moves: seq<Move>)
  {
    State(queue, moves).Some? && Over(State(queue, moves).value)
  }

  // ---------------------------------------------------------------- what the moves amount to

  ghost function Outcomes(moves: seq<Move>): seq<Outcome>
  {
    if moves == [] then []
    else Outcomes(Init(moves)) + if Last(moves).Handled? then [Last(moves).outcome] else []
  }

  ghost predicate Splits(m: Move)
  {
    m.Cleared? || (m.Queued? && m.e.verb == "PATCH")
  }

  /** Another array has taken the place of the one that is walked over. */
  ghost predicate Split(moves: seq<Move>)
  {
    moves != [] && (Split(Init(moves)) || Splits(Last(moves)))
  }

  /** Everything that was requested, in order. */
  ghost function Requests(moves: seq<Move>): seq<Entry>
  {
    if moves == [] then []
    else Requests(Init(moves)) + if Last(moves).Queued? || Last(moves).Sent? then [Last(moves).e] else []
  }

  /** What was queued on the array that is walked over. */
  ghost function Joined(moves: seq<Move>): seq<Entry>
  {
    if moves == [] then []
    else Joined(Init(moves)) + if Last(moves).Queued? && !Split(moves) then [Last(moves).e] else []
  }

  lemma {:induction false} NoPatchJoins(moves: seq<Move>)
    ensures forall e :: e in Joined(moves) ==> e.verb != "PATCH"
  {
    if moves != [] { NoPatchJoins(Init(moves)); }
  }

  lemma FlushGrows(items: seq<Entry>, more: seq<Entry>, outcomes: seq<Outcome>)
    requires |outcomes| <= |items|
    ensures (items + more)[..|outcomes|] == items[..|outcomes|]
  {
  }

  lemma {:induction false} FlushSnoc(items: seq<Entry>, outcomes: seq<Outcome>, outcome: Outcome)
    requires |outcomes| < |items|
    ensures var p := |outcomes|;
            var e, q, o := items[p], items[..p], items[..p + 1];
            && Delivered(o, outcomes + [outcome]) == Delivered(q, outcomes) + (if outcome == Accepted then [e] else [])
            && Remaining(o, outcomes + [outcome]) == Remaining(q, outcomes) +
                 (if outcome != Accepted && e.retries + 1 < MAX_RETRIES then [Retried(e)] else [])
            && Dropped(o, outcomes + [outcome]) == Dropped(q, outcomes) +
                 (if outcome != Accepted && e.retries + 1 >= MAX_RETRIES then [e] else [])
  {
    var p := |outcomes|;
    assert items[..p + 1][..p] == items[..p] && (outcomes + [outcome])[..p] == outcomes;
  }

  /** The state in terms of the moves. */
  ghost predicate IsState(f: Flushing, items: seq<Entry>, outcomes: seq<Outcome>, split: bool)
  {
    && f.items == items && f.pos == |outcomes| <= |items| && (f.current.Some? <==> split)
    && f.kept == Remaining(items[..|outcomes|], outcomes)
    && f.sent == Delivered(items[..|outcomes|], outcomes)
    && f.dropped == Dropped(items[..|outcomes|], outcomes)
  }

  lemma HandledState(f: Flushing, items: seq<Entry>, outcomes: seq<Outcome>, split: bool, outcome: Outcome)
    requires IsState(f, items, outcomes, split) && f.pos < |f.items|
    ensures IsState(Next(f, Handled(outcome)), items, outcomes + [outcome], split)
  {
    FlushSnoc(items, outcomes, outcome);
  }

  lemma QueuedState(f: Flushing, items: seq<Entry>, outcomes: seq<Outcome>, split: bool, e: Entry)
    requires IsState(f, items, outcomes, split) && f.pos < |f.items|
    ensures var late := split || e.verb == "PATCH";
            IsState(Next(f, Queued(e)), if late then items else items + [e], outcomes, late)
  {
    FlushGrows(items, [e], outcomes);
  }

  lemma {:induction false} ItemsAfter(queue: seq<Entry>, moves: seq<Move>)
    requires moves != []
    ensures queue + Joined(moves) ==
            queue + Joined(Init(moves)) + if Last(moves).Queued? && !Split(moves) then [Last(moves).e] else []
  {
    var joined := Joined(Init(moves));
    if Last(moves).Queued? && !Split(moves) {
      assert queue + (joined + [Last(moves).e]) == queue + joined + [Last(moves).e];
    } else {
      assert joined + [] == joined && queue + joined + [] == queue + joined;
    }
  }

  lemma StateStep(f: Flushing, items: seq<Entry>, outcomes: seq<Outcome>, split: bool, m: Move)
    requires IsState(f, items, outcomes, split) && f.pos < |f.items|
    ensures IsState(Next(f, m), items + (if m.Queued? && !split && !Splits(m) then [m.e] else []),
                    outcomes + (if m.Handled? then [m.outcome] else []), split || Splits(m))
  {
    assert items + [] == items && outcomes + [] == outcomes;
    match m
    case Handled(outcome) => HandledState(f, items, outcomes, split, outcome);
    case Queued(e) => QueuedState(f, items, outcomes, split, e);
    case Sent(_) =>
    case Cleared =>
  }

  lemma {:induction false} StateIs(queue: seq<Entry>, moves: seq<Move>)
    requires State(queue, moves).Some?
    ensures IsState(State(queue, moves).value, queue + Joined(moves), Outcomes(moves), Split(moves))
  {
    if moves == [] {
      assert queue + [] == queue;
    } else {
      StateIs(queue, Init(moves));
      StateStep(State(queue, Init(moves)).value, queue + Joined(Init(moves)), Outcomes(Init(moves)),
                Split(Init(moves)), Last(moves));
      ItemsAfter(queue, moves);
    }
  }

  /**
   At its end the flush has handled the queue it started with and what was queued on its array, as one
   flush of that longer queue would have; what it kept is the new queue, whatever else was queued or cleared.
   */
  lemma {:induction false} FlushEndsAs(queue: seq<Entry>, moves: seq<Move>)
    requires Ends(queue, moves)
    ensures var all, f := queue + Joined(moves), State(queue, moves).value;
            && |Outcomes(moves)| == |all|
            && f.kept == Remaining(all, Outcomes(moves))
            && f.sent == Delivered(all, Outcomes(moves))
            && f.dropped == Dropped(all, Outcomes(moves))
  {
    StateIs(queue, moves);
    var all := queue + Joined(moves);
    assert all[..|all|] == all;
  }

  // ---------------------------------------------------------------- exactly which entries are lost

  ghost predicate HasId(entries: seq<Entry>, id: string)
  {
    exists k :: 0 <= k < |entries| && entries[k].id == id
  }

  lemma HasIdSnoc(entries: seq<Entry>, e: Entry, id: string)
    ensures HasId(entries + [e], id) <==> HasId(entries, id) || e.id == id
  {
    var all := entries + [e];
    assert all[|entries|] == e;
    if HasId(entries, id) {
      var k :| 0 <= k < |entries| && entries[k].id == id;
      assert all[k].id == id;
    }
  }

  lemma HasIdAppend(a: seq<Entry>, b: seq<Entry>, id: string)
    ensures HasId(a + b, id) <==> HasId(a, id) || HasId(b, id)
  {
    var all := a + b;
    if HasId(a, id) {
      var k :| 0 <= k < |a| && a[k].id == id;
      assert all[k].id == id;
    }
    if HasId(b, id) {
      var k :| 0 <= k < |b| && b[k].id == id;
      assert all[|a| + k].id == id;
    }
  }

  /** The entry is kept for later, was delivered, or was given up after ten failures. */
  ghost predicate AccountedFor(f: Flushing, id: string)
  {
    HasId(f.kept, id) || HasId(f.sent, id) || HasId(f.dropped, id)
  }

  lemma {:induction false} FlushAccounts(queue: seq<Entry>, outcomes: seq<Outcome>, id: string)
    requires |outcomes| == |queue|
    ensures HasId(queue, id) <==> HasId(Remaining(queue, outcomes), id) || HasId(Delivered(queue, outcomes), id) ||
                                  HasId(Dropped(queue, outcomes), id)
  {
    if queue != [] {
      var n := |queue| - 1;
      var q, o, e := queue[..n], outcomes[..n], queue[n];
      FlushAccounts(q, o, id);
      assert queue == q + [e];
      HasIdSnoc(q, e, id);
      HasIdSnoc(Remaining(q, o), Retried(e), id);
      HasIdSnoc(Delivered(q, o), e, id);
      HasIdSnoc(Dropped(q, o), e, id);
    }
  }

  /** The i-th move queues an entry on the array that is walked over. */
  ghost predicate JoinsAt(moves: seq<Move>, i: nat)
  {
    i < |moves| && moves[i].Queued? && !Split(moves[..i + 1])
  }

  lemma {:induction false} JoinedHas(moves: seq<Move>, id: string)
    ensures HasId(Joined(moves), id) <==> exists i: nat :: JoinsAt(moves, i) && moves[i].e.id == id
  {
    if moves != [] {
      var n := |moves| - 1;
      JoinedHas(Init(moves), id);
      forall i: nat ensures JoinsAt(Init(moves), i) <==> JoinsAt(moves, i) && i < n {
        if i < n { assert Init(moves)[..i + 1] == moves[..i + 1]; }
      }
      assert moves[..n + 1] == moves;
      if Last(moves).Queued? { HasIdSnoc(Joined(Init(moves)), Last(moves).e, id); }
      assert Joined(Init(moves)) + [] == Joined(Init(moves));
      if JoinsAt(moves, n) && Last(moves).e.id == id { assert HasId(Joined(moves), id); }
    }
  }

  /** The id belongs to the entry that the i-th move queues, and to no other. */
  ghost predicate OnlyAt(queue: seq<Entry>, moves: seq<Move>, i: nat)
  {
    && i < |moves| && moves[i].Queued? && !HasId(queue, moves[i].e.id)
    && forall j: nat :: j < |moves| && moves[j].Queued? && moves[j].e.id == moves[i].e.id ==> j == i
  }

  /**
   An entry queued during a flush that is the only one is lost exactly when a PATCH was queued, or the outbox
   was cleared, at that moment or before it.
   */
  lemma {:induction false} LateEntryLostExactly(queue: seq<Entry>, moves: seq<Move>, i: nat)
    requires Ends(queue, moves) && OnlyAt(queue, moves, i)
    ensures AccountedFor(State(queue, moves).value, moves[i].e.id) <==> forall j: nat :: j <= i ==> !Splits(moves[j])
  {
    var id := moves[i].e.id;
    FlushEndsAs(queue, moves);
    FlushAccounts(queue + Joined(moves), Outcomes(moves), id);
    HasIdAppend(queue, Joined(moves), id);
    JoinedHas(moves, id);
    SplitMeans(moves, i + 1);
    assert HasId(Joined(moves), id) <==> JoinsAt(moves, i);
  }

  lemma {:induction false} SplitMeans(moves: seq<Move>, n: nat)
    requires n <= |moves|
    ensures Split(moves[..n]) <==> exists j: nat :: j < n && Splits(moves[j])
  {
    if n > 0 {
      assert Init(moves[..n]) == moves[..n - 1];
      SplitMeans(moves, n - 1);
    }
  }

  // ---------------------------------------------------------------- the flush among the other events

  /** What the flush will send or keep: in the end it is the queue. */
  ghost function InHand(f: Flushing): seq<Entry>
    requires f.pos <= |f.items|
  {
    f.kept + f.items[f.pos..]
  }

  /** A request that is lost at once: it is queued on an array that the flush will replace. */
  ghost function Losing(w: World, e: Entry): World
  {
    w.(log := w.log + [e], lost := w.lost + [e], stale := w.stale + PatchedEndpoints([e]))
  }

  /** One answer for the entry at n: it leaves the queue, is dropped, or stays with one more retry. */
  ghost function Answering(w: World, n: nat, outcome: Outcome): World
    requires n < |w.queue|
  {
    var e := w.queue[n];
    var without := w.queue[..n] + w.queue[n + 1..];
    if outcome == Accepted then w.(queue := without, delivered := w.delivered + [e])
    else if e.retries + 1 < MAX_RETRIES then w.(queue := w.queue[n := Retried(e)])
    else w.(queue := without, lost := w.lost + [e], stale := w.stale + PatchedEndpoints([e]))
  }

  /** The world during a flush, with what the flush has in hand for the queue. */
  ghost function During(w: World, f: Flushing, m: Move): World
    requires f.pos < |f.items| && w.queue == InHand(f)
  {
    match m
    case Handled(outcome) => Answering(w, |f.kept|, outcome)
    case Queued(e) => if e.verb == "PATCH" || f.current.Some? then Losing(w, e) else Step(w, Fail(e))
    case Sent(e) => Step(w, Direct(e))
    case Cleared => w
  }

  lemma InHandAnswered(w: World, f: Flushing, outcome: Outcome)
    requires f.pos < |f.items| && w.queue == InHand(f)
    ensures Answering(w, |f.kept|, outcome).queue == InHand(Next(f, Handled(outcome)))
  {
    var e, rest, n := f.items[f.pos], f.items[f.pos + 1..], |f.kept|;
    assert f.items[f.pos..] == [e] + rest;
    assert w.queue[n] == e && w.queue[..n] == f.kept && w.queue[n + 1..] == rest;
    assert w.queue[n := Retried(e)] == f.kept + [Retried(e)] + rest;
  }

  lemma InHandNext(w: World, f: Flushing, m: Move)
    requires f.pos < |f.items| && w.queue == InHand(f)
    ensures Next(f, m).pos <= |Next(f, m).items| && During(w, f, m).queue == InHand(Next(f, m))
  {
    match m
    case Handled(outcome) => InHandAnswered(w, f, outcome);
    case Queued(late) =>
      assert (f.items + [late])[f.pos..] == f.items[f.pos..] + [late];
      assert f.kept + (f.items[f.pos..] + [late]) == w.queue + [late];
    case Sent(_) =>
    case Cleared =>
  }

  /** The world after the moves of a flush that started in w. */
  ghost function AfterFlush(w: World, moves: seq<Move>): (w': World)
    requires State(w.queue, moves).Some?
    ensures w'.queue == InHand(State(w.queue, moves).value)
  {
    if moves == [] then
      assert [] + w.queue == w.queue;
      w
    else
      var f, before := State(w.queue, Init(moves)).value, AfterFlush(w, Init(moves));
      InHandNext(before, f, Last(moves));
      During(before, f, Last(moves))
  }

  /** At its end what the flush has kept is the queue. */
  lemma EndsWithKept(w: World, moves: seq<Move>)
    requires Ends(w.queue, moves)
    ensures AfterFlush(w, moves).queue == State(w.queue, moves).value.kept
  {
    var f := State(w.queue, moves).value;
    assert f.kept + f.items[f.pos..] == f.kept;
  }

  // Every move keeps what is known of a world.

  lemma LosingHolds(w: World, e: Entry, ep: string)
    requires ep !in Losing(w, e).stale && LastBody(w.delivered + w.queue, ep) == LastBody(w.log, ep)
    ensures LastBody(w.delivered + w.queue, ep) == LastBody(w.log + [e], ep)
  {
    LastBodySnoc(w.log, e, ep);
    assert e in [e];
  }

  lemma LosingConserves(w: World, e: Entry, ep: string)
    requires PostsConserved(w, ep)
    ensures PostsConserved(Losing(w, e), ep)
  {
    PostsSnoc(w.log, e, ep);
    PostsSnoc(w.lost, e, ep);
  }

  lemma LosingKeeps(w: World, e: Entry)
    requires Faithful(w)
    ensures Faithful(Losing(w, e))
  {
    var w' := Losing(w, e);
    forall ep | ep !in w'.stale ensures LastBody(w'.delivered + w'.queue, ep) == LastBody(w'.log, ep) {
      LosingHolds(w, e, ep);
    }
    forall ep ensures PostsConserved(w', ep) {
      assert PostsConserved(w, ep);
      LosingConserves(w, e, ep);
    }
  }

  lemma Around(queue: seq<Entry>, n: nat)
    requires n < |queue|
    ensures queue == queue[..n] + ([queue[n]] + queue[n + 1..])
  {
  }

  lemma BodyOfOne(e: Entry, ep: string)
    ensures LastBody([e], ep) == if PatchTo(e, ep) then Some(e.body) else None
    ensures PostsTo([e], ep) == if PostTo(e, ep) then [Record(e)] else []
  {
    LastBodySnoc([], e, ep);
    PostsSnoc([], e, ep);
    assert [] + [e] == [e];
  }

  /** What the queue says with x, or nothing, in the place of the entry at n. */
  lemma AroundSays(queue: seq<Entry>, n: nat, x: seq<Entry>, ep: string)
    requires n < |queue| && Compact(queue)
    requires x == [] || x == [Retried(queue[n])]
    ensures var queue' := queue[..n] + (x + queue[n + 1..]);
            && LastBody(queue', ep) == (if PatchTo(queue[n], ep) && x == [] then None else LastBody(queue, ep))
            && multiset(PostsTo(queue, ep)) ==
                 multiset(PostsTo(queue', ep)) + multiset(if x == [] then PostsTo([queue[n]], ep) else [])
  {
    var e, before, behind := queue[n], queue[..n], queue[n + 1..];
    Around(queue, n);
    BodyOfOne(e, ep);
    BodyOfOne(Retried(e), ep);
    LastBodyAppend(before, [e] + behind, ep);
    LastBodyAppend([e], behind, ep);
    LastBodyAppend(before, x + behind, ep);
    LastBodyAppend(x, behind, ep);
    PostsAppend(before, [e] + behind, ep);
    PostsAppend([e], behind, ep);
    PostsAppend(before, x + behind, ep);
    PostsAppend(x, behind, ep);
    if PatchTo(e, ep) {
      NoOtherPatch(queue, n, ep);
      NoPatchBehind(queue, n, ep);
    }
  }

  lemma NoPatchBehind(queue: seq<Entry>, n: nat, ep: string)
    requires Compact(queue) && n < |queue| && PatchTo(queue[n], ep)
    ensures LastBody(queue[n + 1..], ep).None?
  {
    NoPatchNoBody(queue[n + 1..], ep);
  }

  lemma AnsweringCompact(queue: seq<Entry>, n: nat)
    requires Compact(queue) && n < |queue|
    ensures Compact(queue[..n] + queue[n + 1..]) && Compact(queue[n := Retried(queue[n])])
  {
    var without, aged := queue[..n] + queue[n + 1..], queue[n := Retried(queue[n])];
    forall i, j | 0 <= i < j < |without| && without[i].verb == "PATCH" && without[j].verb == "PATCH"
      ensures without[i].endpoint != without[j].endpoint
    {
      assert without[i] == queue[if i < n then i else i + 1] && without[j] == queue[if j < n then j else j + 1];
    }
  }

  /** What the endpoint is going to hold: the last body on the server or in hand. */
  ghost function Held(w: World, ep: string): Option<Option<string>>
  {
    LastBody(w.delivered + w.queue, ep)
  }

  ghost predicate Drops(e: Entry, outcome: Outcome)
  {
    outcome != Accepted && e.retries + 1 >= MAX_RETRIES
  }

  lemma OnlyPatch(queue: seq<Entry>, n: nat, ep: string)
    requires Compact(queue) && n < |queue| && PatchTo(queue[n], ep)
    ensures LastBody(queue, ep) == Some(queue[n].body)
  {
    Around(queue, n);
    NoPatchBehind(queue, n, ep);
    BodyOfOne(queue[n], ep);
    LastBodyAppend(queue[..n], [queue[n]] + queue[n + 1..], ep);
    LastBodyAppend([queue[n]], queue[n + 1..], ep);
  }

  /** What stands in the place of the entry at n after an answer. */
  ghost function Left(e: Entry, outcome: Outcome): seq<Entry>
  {
    if outcome == Accepted || Drops(e, outcome) then [] else [Retried(e)]
  }

  lemma AnsweringQueue(w: World, n: nat, outcome: Outcome)
    requires n < |w.queue|
    ensures Answering(w, n, outcome).queue == w.queue[..n] + (Left(w.queue[n], outcome) + w.queue[n + 1..])
  {
  }

  /** An answer leaves what will be held as it was, unless the endpoint's PATCH is dropped. */
  lemma AnsweringHolds(w: World, n: nat, outcome: Outcome, ep: string)
    requires Compact(w.queue) && n < |w.queue| && !(Drops(w.queue[n], outcome) && PatchTo(w.queue[n], ep))
    ensures Held(Answering(w, n, outcome), ep) == Held(w, ep)
  {
    var e, w' := w.queue[n], Answering(w, n, outcome);
    AnsweringQueue(w, n, outcome);
    AroundSays(w.queue, n, Left(e, outcome), ep);
    LastBodyAppend(w.delivered, w.queue, ep);
    LastBodyAppend(w'.delivered, w'.queue, ep);
    LastBodySnoc(w.delivered, e, ep);
    if PatchTo(e, ep) { OnlyPatch(w.queue, n, ep); }
  }

  /** Posts are only moved. */
  lemma AnsweringConserves(w: World, n: nat, outcome: Outcome, ep: string)
    requires Compact(w.queue) && n < |w.queue| && PostsConserved(w, ep)
    ensures PostsConserved(Answering(w, n, outcome), ep)
  {
    var e := w.queue[n];
    AnsweringQueue(w, n, outcome);
    AroundSays(w.queue, n, Left(e, outcome), ep);
    BodyOfOne(e, ep);
    PostsSnoc(w.delivered, e, ep);
    PostsSnoc(w.lost, e, ep);
  }

  lemma AnsweringKeeps(w: World, n: nat, outcome: Outcome)
    requires Faithful(w) && n < |w.queue|
    ensures Faithful(Answering(w, n, outcome))
  {
    var w' := Answering(w, n, outcome);
    AnsweringCompact(w.queue, n);
    forall ep | ep !in w'.stale ensures LastBody(w'.delivered + w'.queue, ep) == LastBody(w'.log, ep) {
      assert w.queue[n] in [w.queue[n]];
      AnsweringHolds(w, n, outcome, ep);
    }
    forall ep ensures PostsConserved(w', ep) {
      assert PostsConserved(w, ep);
      AnsweringConserves(w, n, outcome, ep);
    }
  }

  lemma DuringKeeps(w: World, f: Flushing, m: Move)
    requires f.pos < |f.items| && w.queue == InHand(f) && Faithful(w)
    ensures Faithful(During(w, f, m))
  {
    match m
    case Handled(outcome) => AnsweringKeeps(w, |f.kept|, outcome);
    case Queued(e) => if e.verb == "PATCH" || f.current.Some? { LosingKeeps(w, e); } else { FailKeeps(w, e); }
    case Sent(e) => DirectKeeps(w, e);
    case Cleared =>
  }

  /** At every moment of a flush what it has in hand, with what was delivered and lost, accounts for the log. */
  lemma {:induction false} AfterFlushKeeps(w: World, moves: seq<Move>)
    requires Faithful(w) && State(w.queue, moves).Some?
    ensures Faithful(AfterFlush(w, moves))
  {
    if moves != [] {
      AfterFlushKeeps(w, Init(moves));
      DuringKeeps(AfterFlush(w, Init(moves)), State(w.queue, Init(moves)).value, Last(moves));
    }
  }

  /** Runs in which requests are made, and the outbox is cleared, also during a flush. */
  datatype Action = Between(event: Event) | Flushed(moves: seq<Move>)

  ghost predicate Follows(w: World, action: Action, next: World)
  {
    match action
    case Between(event) => Enabled(w, event) && next == Step(w, event)
    case Flushed(moves) => Ends(w.queue, moves) && next == AfterFlush(w, moves)
  }

  ghost predicate IsLateRun(worlds: seq<World>, actions: seq<Action>)
  {
    && |worlds| == |actions| + 1 && worlds[0] == Loaded(worlds[0].queue) && Compact(worlds[0].queue)
    && forall k :: 0 <= k < |actions| ==> Follows(worlds[k], actions[k], worlds[k + 1])
  }

  /** What was known of runs with simple flushes is also known of these. */
  lemma {:induction false} LateRunsAreFaithful(worlds: seq<World>, actions: seq<Action>, k: nat)
    requires IsLateRun(worlds, actions) && k <= |actions|
    ensures Faithful(worlds[k])
  {
    if k == 0 {
      LoadedIsFaithful(worlds[0].queue);
    } else {
      LateRunsAreFaithful(worlds, actions, k - 1);
      assert Follows(worlds[k - 1], actions[k - 1], worlds[k]);
      match actions[k - 1]
      case Between(event) => StepKeeps(worlds[k - 1], event);
      case Flushed(moves) => AfterFlushKeeps(worlds[k - 1], moves);
    }
  }

  // ---------------------------------------------------------------- a flush with posts only is one step

  /** Failed requests one after another. */
  ghost function Failing(w: World, es: seq<Entry>): World
  {
    if es == [] then w else Step(Failing(w, es[..|es| - 1]), Fail(es[|es| - 1]))
  }

  lemma {:induction false} FailingPosts(w: World, es: seq<Entry>)
    requires forall e :: e in es ==> e.verb != "PATCH"
    ensures Failing(w, es) == w.(queue := w.queue + es, log := w.log + es)
  {
    if es == [] {
      assert w.queue + [] == w.queue && w.log + [] == w.log;
    } else {
      var n := |es| - 1;
      FailingPosts(w, es[..n]);
      assert es == es[..n] + [es[n]];
      assert w.queue + es[..n] + [es[n]] == w.queue + es && w.log + es[..n] + [es[n]] == w.log + es;
    }
  }

  ghost predicate NoneSent(moves: seq<Move>)
  {
    moves == [] || (NoneSent(Init(moves)) && !Last(moves).Sent?)
  }

  lemma {:induction false} AllJoin(moves: seq<Move>)
    requires NoneSent(moves) && !Split(moves)
    ensures Requests(moves) == Joined(moves)
  {
    if moves != [] { AllJoin(Init(moves)); }
  }

  /** The world during a flush whose array stays the queue, with nothing sent past it. */
  ghost predicate IsUnsplit(w: World, w': World, f: Flushing, joined: seq<Entry>)
  {
    && f.current.None? && w'.delivered == w.delivered + f.sent && w'.log == w.log + joined
    && w'.lost == w.lost + f.dropped && w'.stale == w.stale + PatchedEndpoints(f.dropped)
  }

  lemma UnsplitStep(w: World, w': World, f: Flushing, joined: seq<Entry>, m: Move)
    requires f.pos < |f.items| && w'.queue == InHand(f) && IsUnsplit(w, w', f, joined)
    requires !Splits(m) && !m.Sent?
    ensures IsUnsplit(w, During(w', f, m), Next(f, m), joined + if m.Queued? then [m.e] else [])
  {
    assert joined + [] == joined;
    if m.Handled? {
      var e := f.items[f.pos];
      assert w'.queue[|f.kept|] == e;
      assert PatchedEndpoints(f.dropped + [e]) == PatchedEndpoints(f.dropped) + PatchedEndpoints([e]);
    }
  }

  lemma {:induction false} UnsplitWorld(w: World, moves: seq<Move>)
    requires State(w.queue, moves).Some? && !Split(moves) && NoneSent(moves)
    ensures IsUnsplit(w, AfterFlush(w, moves), State(w.queue, moves).value, Joined(moves))
  {
    if moves == [] {
      assert w.delivered + [] == w.delivered && w.log + [] == w.log && w.lost + [] == w.lost;
      assert PatchedEndpoints([]) == {};
    } else {
      UnsplitWorld(w, Init(moves));
      UnsplitStep(w, AfterFlush(w, Init(moves)), State(w.queue, Init(moves)).value, Joined(Init(moves)), Last(moves));
    }
  }

  /** Without a PATCH, a clear or a direct request in the meantime it is the simple form on the longer queue. */
  lemma UnsplitIsOneStep(w: World, moves: seq<Move>)
    requires Ends(w.queue, moves) && !Split(moves) && NoneSent(moves)
    ensures Enabled(Failing(w, Requests(moves)), Flush(Outcomes(moves)))
    ensures AfterFlush(w, moves) == Step(Failing(w, Requests(moves)), Flush(Outcomes(moves)))
  {
    AllJoin(moves);
    NoPatchJoins(moves);
    FailingPosts(w, Joined(moves));
    FlushEndsAs(w.queue, moves);
    UnsplitWorld(w, moves);
    EndsWithKept(w, moves);
  }

  // ---------------------------------------------------------------- which PATCH arrives

  lemma {:induction false} LogAfterFlush(w: World, moves: seq<Move>)
    requires State(w.queue, moves).Some?
    ensures AfterFlush(w, moves).log == w.log + Requests(moves)
  {
    if moves == [] {
      assert w.log + [] == w.log;
    } else {
      LogAfterFlush(w, Init(moves));
      var m, requests := Last(moves), Requests(Init(moves));
      if m.Queued? || m.Sent? {
        assert w.log + (requests + [m.e]) == w.log + requests + [m.e];
      } else {
        assert requests + [] == requests;
      }
    }
  }

  /** The direct PATCHes to the endpoint that were sent while the flush had none for it in hand. */
  ghost function Heard(queue: seq<Entry>, moves: seq<Move>, ep: string): seq<Entry>
    requires State(queue, moves).Some?
  {
    if moves == [] then []
    else
      var m, f := Last(moves), State(queue, Init(moves)).value;
      Heard(queue, Init(moves), ep) +
      if m.Sent? && PatchTo(m.e, ep) && LastBody(InHand(f), ep).None? then [m.e] else []
  }

  lemma DuringHolds(w: World, f: Flushing, m: Move, ep: string)
    requires Compact(w.queue) && f.pos < |f.items| && w.queue == InHand(f)
    requires ep !in PatchedEndpoints(Next(f, m).dropped)
    ensures Held(During(w, f, m), ep) ==
            if m.Sent? && PatchTo(m.e, ep) && LastBody(w.queue, ep).None? then Some(m.e.body) else Held(w, ep)
  {
    match m
    case Handled(outcome) =>
      assert w.queue[|f.kept|] == f.items[f.pos];
      if Drops(f.items[f.pos], outcome) { assert f.items[f.pos] in Next(f, m).dropped; }
      AnsweringHolds(w, |f.kept|, outcome, ep);
    case Queued(e) =>
      if e.verb != "PATCH" {
        EnqueuedSays(w.queue, e, ep);
        LastBodySnoc(w.queue, e, ep);
        LastBodyAppend(w.delivered, w.queue, ep);
        LastBodyAppend(w.delivered, Enqueued(w.queue, e), ep);
      }
    case Sent(e) =>
      LastBodySnoc(w.delivered, e, ep);
      LastBodyAppend(w.delivered, w.queue, ep);
      LastBodyAppend(w.delivered + [e], w.queue, ep);
    case Cleared =>
  }

  lemma DroppedGrows(f: Flushing, m: Move)
    requires f.pos < |f.items|
    ensures PatchedEndpoints(f.dropped) <= PatchedEndpoints(Next(f, m).dropped)
  {
  }

  lemma {:induction false} AfterFlushHolds(w: World, moves: seq<Move>, ep: string)
    requires Faithful(w) && State(w.queue, moves).Some?
    requires ep !in PatchedEndpoints(State(w.queue, moves).value.dropped)
    ensures var heard := LastBody(Heard(w.queue, moves, ep), ep);
            Held(AfterFlush(w, moves), ep) == if heard.Some? then heard else Held(w, ep)
  {
    if moves != [] {
      var f, m := State(w.queue, Init(moves)).value, Last(moves);
      DroppedGrows(f, m);
      AfterFlushHolds(w, Init(moves), ep);
      AfterFlushKeeps(w, Init(moves));
      DuringHolds(AfterFlush(w, Init(moves)), f, m, ep);
      var heard := Heard(w.queue, Init(moves), ep);
      assert heard + [] == heard;
      if m.Sent? { LastBodySnoc(heard, m.e, ep); }
    }
  }

  lemma {:induction false} HeardIsRequested(queue: seq<Entry>, moves: seq<Move>, ep: string)
    requires State(queue, moves).Some? && LastBody(Requests(moves), ep).None?
    ensures LastBody(Heard(queue, moves, ep), ep).None?
  {
    if moves != [] {
      var m, heard := Last(moves), Heard(queue, Init(moves), ep);
      assert heard + [] == heard && Requests(Init(moves)) + [] == Requests(Init(moves));
      if m.Queued? || m.Sent? { LastBodySnoc(Requests(Init(moves)), m.e, ep); }
      HeardIsRequested(queue, Init(moves), ep);
    }
  }

  /**
   An endpoint whose latest update had not been lost ends with its latest body exactly when no PATCH for it was
   requested during the flush, or the last one repeats the body that was heard last: that of a direct PATCH sent
   while the flush had none for the endpoint in hand, or else that of the last PATCH before the flush.
   */
  lemma LatePatchArrivesExactly(w: World, moves: seq<Move>, ep: string)
    requires Faithful(w) && State(w.queue, moves).Some?
    requires ep !in w.stale + PatchedEndpoints(State(w.queue, moves).value.dropped)
    ensures var w', heard := AfterFlush(w, moves), LastBody(Heard(w.queue, moves, ep), ep);
            Held(w', ep) == LastBody(w'.log, ep) <==>
            LastBody(Requests(moves), ep) == None ||
            LastBody(Requests(moves), ep) == if heard.Some? then heard else LastBody(w.log, ep)
  {
    AfterFlushHolds(w, moves, ep);
    LogAfterFlush(w, moves);
    LastBodyAppend(w.log, Requests(moves), ep);
    if LastBody(Requests(moves), ep).None? { HeardIsRequested(w.queue, moves, ep); }
  }

  /**
   A direct PATCH during a flush is what its endpoint will hold exactly when the flush has no other body for it
   in hand, whether or not the queue has been replaced or cleared.
   */
  lemma LateDirectArrivesExactly(w: World, moves: seq<Move>, e: Entry)
    requires moves != [] && Last(moves) == Sent(e) && e.verb == "PATCH" && State(w.queue, moves).Some?
    ensures var w', f := AfterFlush(w, moves), State(w.queue, Init(moves)).value;
            Held(w', e.endpoint) == LastBody(w'.log, e.endpoint) <==>
            LastBody(InHand(f), e.endpoint) in {None, Some(e.body)}
  {
    DirectArrivesExactly(AfterFlush(w, Init(moves)), e);
  }

  /** The server refuses the older PATCH while a newer one is queued: the older one stays, the newer one is gone. */
  lemma NewerPatchLost(older: Entry, newer: Entry)
    requires older.verb == newer.verb == "PATCH" && older.endpoint == newer.endpoint && older.retries == 0
    ensures var moves := [Queued(newer), Handled(Refused)];
            && Ends([older], moves) && State([older], moves).value.kept == [Retried(older)]
            && var w := AfterFlush(Loaded([older]), moves);
               Held(w, newer.endpoint) == Some(older.body) && LastBody(w.log, newer.endpoint) == Some(newer.body)
  {
    var moves := [Queued(newer), Handled(Refused)];
    assert Init(moves) == [Queued(newer)] && Init([Queued(newer)]) == [];
    assert State([older], []) == Some(Begin([older]));
    assert State([older], [Queued(newer)]) == Some(Next(Begin([older]), Queued(newer)));
    assert [] + [Retried(older)] == [Retried(older)];
    var w := AfterFlush(Loaded([older]), moves);
    EndsWithKept(Loaded([older]), moves);
    assert AfterFlush(Loaded([older]), [Queued(newer)]).delivered == [];
    assert w.delivered + w.queue == [] + [Retried(older)];
    BodyOfOne(Retried(older), newer.endpoint);
    LogAfterFlush(Loaded([older]), moves);
    assert Requests([]) == [] && Requests([Queued(newer)]) == [] + [newer];
    assert Requests(moves) == Requests([Queued(newer)]) + [];
    LastBodySnoc([older], newer, newer.endpoint);
    assert [older] + ([] + [newer] + []) == [older] + [newer];
  }

  /** The outbox is cleared during a flush and a newer PATCH sent at once: the flush still writes the older one over it. */
  lemma ClearedPatchComesLate(older: Entry, newer: Entry)
    requires PatchTo(older, newer.endpoint) && PatchTo(newer, newer.endpoint)
    ensures var moves := [Cleared, Sent(newer), Handled(Accepted)];
            && Ends([older], moves)
            && var w := AfterFlush(Loaded([older]), moves);
               w.queue == [] && w.delivered == [newer, older] && w.log == [older, newer]
  {
    var moves := [Cleared, Sent(newer), Handled(Accepted)];
    assert Init(moves) == [Cleared, Sent(newer)] && Init([Cleared, Sent(newer)]) == [Cleared] && Init([Cleared]) == [];
    var f := Next(Begin([older]), Cleared);
    assert State([older], []) == Some(Begin([older]));
    assert State([older], [Cleared]) == Some(f);
    assert State([older], [Cleared, Sent(newer)]) == Some(f);
    assert InHand(f) == [older];
    assert AfterFlush(Loaded([older]), []) == Loaded([older]);
    assert AfterFlush(Loaded([older]), [Cleared]) == Loaded([older]);
    EndsWithKept(Loaded([older]), moves);
  }
}
