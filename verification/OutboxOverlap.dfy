/**
 Flushes that overlap. Queueing an entry starts the timer also while a flush is under way, so a second flush
 may begin before the first has ended. Each walks over an array of entries, perhaps the same one. The questions
 are when an entry is delivered twice, and when one is lost. Whether an entry that fails is kept or given up is
 left open.
 */
module OutboxOverlap {
  import opened Options
  import opened Outbox
  import opened Seqs

  // ---------------------------------------------------------------- the steps

  /** A flush under way: the array it walks over, its position there, and what it has kept. */
  datatype Flight = Flight(arr: nat, pos: nat, kept: seq<Entry>)

  /** All arrays there have been, which of them is the queue, the flushes under way, and the ids delivered. */
  datatype Heap = Heap(arrays: seq<seq<Entry>>, cur: nat, flights: seq<Flight>, delivered: seq<string>,
                       used: set<string>)

  datatype Answer = Taken | Kept | GivenUp

  datatype Move =
    | Begin                           // a flush starts
    | Answered(i: nat, answer: Answer) // the server's answer in one of the flushes
    | Queued(e: Entry)                // a request fails and is queued
    | Cleared

  ghost function Queue(h: Heap): seq<Entry>
    requires h.cur < |h.arrays|
  {
    h.arrays[h.cur]
  }

  ghost predicate Stands(h: Heap)
  {
    && h.cur < |h.arrays|
    && forall i :: 0 <= i < |h.flights| ==> h.flights[i].arr < |h.arrays| && h.flights[i].pos < |h.arrays[h.flights[i].arr]|
  }

  ghost predicate Can(h: Heap, m: Move)
  {
    Stands(h) &&
    match m
    case Begin => Queue(h) != []
    case Answered(i, _) => i < |h.flights|
    case Queued(e) => e.id !in h.used
    case Cleared => true
  }

  ghost function Put(h: Heap, queue: seq<Entry>): Heap
  {
    h.(arrays := h.arrays + [queue], cur := |h.arrays|)
  }

  /** The flight after the answer for the entry at its position. */
  ghost function Moved(f: Flight, e: Entry, answer: Answer): Flight
  {
    f.(pos := f.pos + 1, kept := if answer == Kept then f.kept + [e] else f.kept)
  }

  /** At the end of its array a flush puts what it kept in the place of the queue, and is over. */
  ghost function Landed(h: Heap, i: nat, f: Flight): Heap
    requires i < |h.flights| && f.arr < |h.arrays|
  {
    if f.pos < |h.arrays[f.arr]| then h.(flights := h.flights[i := f])
    else Put(h.(flights := Without(h.flights, i)), f.kept)
  }

  ghost function Step(h: Heap, m: Move): Heap
    requires Can(h, m)
  {
    match m
    case Begin => h.(flights := h.flights + [Flight(h.cur, 0, [])])
    case Answered(i, answer) =>
      var f := h.flights[i];
      var e := h.arrays[f.arr][f.pos];
      Landed(if answer == Taken then h.(delivered := h.delivered + [e.id]) else h, i, Moved(f, e, answer))
    case Queued(e) =>
      var h' := h.(used := h.used + {e.id});
      if e.verb == "PATCH" then Put(h', Enqueued(Queue(h), e)) else h'.(arrays := h.arrays[h.cur := Enqueued(Queue(h), e)])
    case Cleared => Put(h, [])
  }

  /** The outbox with a saved queue. */
  ghost function Start(queue: seq<Entry>): Heap
  {
    Heap([queue], 0, [], [], Ids(queue))
  }

  // ---------------------------------------------------------------- what is in whose hands

  ghost function Ids(entries: seq<Entry>): set<string>
  {
    set k | 0 <= k < |entries| :: entries[k].id
  }

  ghost function Members(ids: seq<string>): set<string>
  {
    set k | 0 <= k < |ids| :: ids[k]
  }

  ghost predicate DistinctIds(entries: seq<Entry>)
  {
    forall i, j :: 0 <= i < j < |entries| ==> entries[i].id != entries[j].id
  }

  /** What a flush has still to handle. */
  ghost function Ahead(arrays: seq<seq<Entry>>, f: Flight): seq<Entry>
    requires f.arr < |arrays| && f.pos <= |arrays[f.arr]|
  {
    arrays[f.arr][f.pos..]
  }

  /** The entries a flush will deliver or give back: those ahead of it and those it has kept. */
  ghost function Hold(arrays: seq<seq<Entry>>, f: Flight): set<string>
    requires f.arr < |arrays| && f.pos <= |arrays[f.arr]|
  {
    Ids(Ahead(arrays, f)) + Ids(f.kept)
  }

  ghost predicate HoldsApart(arrays: seq<seq<Entry>>, f: Flight)
    requires f.arr < |arrays| && f.pos <= |arrays[f.arr]|
  {
    DistinctIds(f.kept) && Ids(Ahead(arrays, f)) !! Ids(f.kept)
  }

  ghost predicate ArraysOk(h: Heap)
  {
    forall a :: 0 <= a < |h.arrays| ==> DistinctIds(h.arrays[a]) && Ids(h.arrays[a]) <= h.used
  }

  /** One flush: nothing it holds twice, nothing delivered, nothing unheard of. */
  ghost predicate FlightOk(h: Heap, f: Flight)
    requires f.arr < |h.arrays| && f.pos <= |h.arrays[f.arr]|
  {
    HoldsApart(h.arrays, f) && Hold(h.arrays, f) <= h.used && Hold(h.arrays, f) !! Members(h.delivered)
  }

  ghost predicate FlightsOk(h: Heap)
    requires Stands(h)
  {
    && (forall i :: 0 <= i < |h.flights| ==> FlightOk(h, h.flights[i]))
    && (forall i, j :: 0 <= i < j < |h.flights| ==> Hold(h.arrays, h.flights[i]) !! Hold(h.arrays, h.flights[j]))
  }

  /** Nothing delivered twice, and no entry in two hands, so that nothing will be. */
  ghost predicate Sound(h: Heap)
  {
    && Stands(h) && ArraysOk(h)
    && Distinct(h.delivered) && Members(h.delivered) <= h.used
    && FlightsOk(h)
    && (h.flights == [] ==> Ids(Queue(h)) !! Members(h.delivered))
  }

  /** No entry of the queue has been delivered or is in the hands of a flush. */
  ghost predicate SafeToBegin(h: Heap)
    requires Stands(h)
  {
    && Ids(Queue(h)) !! Members(h.delivered)
    && forall i :: 0 <= i < |h.flights| ==> Ids(Queue(h)) !! Hold(h.arrays, h.flights[i])
  }

  lemma IdsHas(entries: seq<Entry>, k: nat)
    requires k < |entries|
    ensures entries[k].id in Ids(entries)
  {
  }

  lemma IdsAppend(a: seq<Entry>, b: seq<Entry>)
    ensures Ids(a + b) == Ids(a) + Ids(b)
  {
    forall id ensures id in Ids(a + b) <==> id in Ids(a) || id in Ids(b) {
      if id in Ids(a) {
        var k :| 0 <= k < |a| && a[k].id == id;
        IdsHas(a + b, k);
      }
      if id in Ids(b) {
        var k :| 0 <= k < |b| && b[k].id == id;
        IdsHas(a + b, |a| + k);
      }
    }
  }

  lemma MembersSnoc(ids: seq<string>, id: string)
    ensures Members(ids + [id]) == Members(ids) + {id}
  {
    var more := ids + [id];
    forall x ensures x in Members(more) <==> x in Members(ids) || x == id {
      if x in Members(ids) {
        var k :| 0 <= k < |ids| && ids[k] == x;
        assert more[k] == x;
      }
      if x == id { assert more[|ids|] == x; }
    }
  }

  lemma IdsHead(entries: seq<Entry>)
    requires entries != [] && DistinctIds(entries)
    ensures Ids(entries) == {entries[0].id} + Ids(entries[1..]) && entries[0].id !in Ids(entries[1..])
  {
    assert entries == [entries[0]] + entries[1..];
    IdsAppend([entries[0]], entries[1..]);
    assert Ids([entries[0]]) == {entries[0].id} by { IdsHas([entries[0]], 0); }
  }

  lemma AheadMoves(arrays: seq<seq<Entry>>, f: Flight)
    requires f.arr < |arrays| && f.pos < |arrays[f.arr]| && DistinctIds(arrays[f.arr])
    ensures var id := arrays[f.arr][f.pos].id;
            var next := f.(pos := f.pos + 1);
            Ids(Ahead(arrays, f)) == {id} + Ids(Ahead(arrays, next)) && id !in Ids(Ahead(arrays, next))
  {
    var ahead := Ahead(arrays, f);
    forall i, j | 0 <= i < j < |ahead| ensures ahead[i].id != ahead[j].id {
      assert ahead[i] == arrays[f.arr][f.pos + i] && ahead[j] == arrays[f.arr][f.pos + j];
    }
    IdsHead(ahead);
    assert ahead[1..] == Ahead(arrays, f.(pos := f.pos + 1));
  }

  // ---------------------------------------------------------------- every step keeps entries apart

  /** Whatever the answer, the flush holds no more than before, and no longer what it has delivered. */
  lemma MovedHolds(arrays: seq<seq<Entry>>, f: Flight, answer: Answer)
    requires f.arr < |arrays| && f.pos < |arrays[f.arr]| && DistinctIds(arrays[f.arr]) && HoldsApart(arrays, f)
    ensures var e := arrays[f.arr][f.pos];
            var next := Moved(f, e, answer);
            && HoldsApart(arrays, next) && Hold(arrays, next) <= Hold(arrays, f) && e.id in Hold(arrays, f)
            && (answer == Taken ==> e.id !in Hold(arrays, next))
  {
    var e := arrays[f.arr][f.pos];
    AheadMoves(arrays, f);
    IdsAppend(f.kept, [e]);
    assert Ids([e]) == {e.id} by { IdsHas([e], 0); }
    assert e.id !in Ids(f.kept);
    assert Ahead(arrays, Moved(f, e, answer)) == Ahead(arrays, f.(pos := f.pos + 1));
    KeptDistinct(f.kept, e);
  }

  lemma KeptDistinct(kept: seq<Entry>, e: Entry)
    requires DistinctIds(kept) && e.id !in Ids(kept)
    ensures DistinctIds(kept + [e])
  {
    forall i, j | 0 <= i < j < |kept + [e]| ensures (kept + [e])[i].id != (kept + [e])[j].id {
      IdsHas(kept, i);
    }
  }

  /** The state with the answer recorded and the flight moved on, before it may land. */
  ghost function Recorded(h: Heap, i: nat, answer: Answer): Heap
    requires Stands(h) && i < |h.flights|
  {
    if answer == Taken then h.(delivered := h.delivered + [h.arrays[h.flights[i].arr][h.flights[i].pos].id]) else h
  }

  lemma AnswerDelivers(h: Heap, i: nat, answer: Answer)
    requires Sound(h) && i < |h.flights|
    ensures var h' := Recorded(h, i, answer);
            Distinct(h'.delivered) && Members(h'.delivered) <= h.used &&
            Members(h'.delivered) <= Members(h.delivered) + Hold(h.arrays, h.flights[i])
  {
    var f := h.flights[i];
    var id := h.arrays[f.arr][f.pos].id;
    AheadMoves(h.arrays, f);
    MembersSnoc(h.delivered, id);
    assert FlightOk(h, f) && id in Hold(h.arrays, f);
    forall k | 0 <= k < |h.delivered| ensures h.delivered[k] != id {
      assert h.delivered[k] in Members(h.delivered);
    }
  }

  /** After an answer the flights are still apart, from each other and from what was delivered. */
  lemma AnswerKeepsApart(h: Heap, i: nat, answer: Answer, j: nat)
    requires Sound(h) && i < |h.flights| && j < |h.flights|
    ensures var h' := Recorded(h, i, answer);
            var e := h.arrays[h.flights[i].arr][h.flights[i].pos];
            var g := if j == i then Moved(h.flights[i], e, answer) else h.flights[j];
            && Hold(h.arrays, g) <= Hold(h.arrays, h.flights[j]) && FlightOk(h', g)
  {
    var f := h.flights[i];
    var id := h.arrays[f.arr][f.pos].id;
    assert FlightOk(h, f) && FlightOk(h, h.flights[j]);
    MovedHolds(h.arrays, f, answer);
    MembersSnoc(h.delivered, id);
    if j != i {
      assert Hold(h.arrays, f) !! Hold(h.arrays, h.flights[j]);
    }
  }

  lemma PutKeepsHold(arrays: seq<seq<Entry>>, queue: seq<Entry>, f: Flight)
    requires f.arr < |arrays| && f.pos <= |arrays[f.arr]|
    ensures Hold(arrays + [queue], f) == Hold(arrays, f) && HoldsApart(arrays + [queue], f) == HoldsApart(arrays, f)
  {
    assert Ahead(arrays + [queue], f) == Ahead(arrays, f);
  }

  /** Another array in the place of the queue. */
  lemma PutIsSound(h: Heap, queue: seq<Entry>)
    requires Stands(h) && ArraysOk(h) && Distinct(h.delivered) && Members(h.delivered) <= h.used && FlightsOk(h)
    requires DistinctIds(queue) && Ids(queue) <= h.used && (h.flights == [] ==> Ids(queue) !! Members(h.delivered))
    ensures Sound(Put(h, queue))
  {
    var h' := Put(h, queue);
    forall i | 0 <= i < |h.flights| ensures FlightOk(h', h.flights[i]) {
      assert FlightOk(h, h.flights[i]);
      PutKeepsHold(h.arrays, queue, h.flights[i]);
    }
    forall i, j | 0 <= i < j < |h.flights| ensures Hold(h'.arrays, h.flights[i]) !! Hold(h'.arrays, h.flights[j]) {
      PutKeepsHold(h.arrays, queue, h.flights[i]);
      PutKeepsHold(h.arrays, queue, h.flights[j]);
    }
  }

  lemma AnswerStays(h: Heap, i: nat, answer: Answer, f: Flight)
    requires Sound(h) && i < |h.flights| && f == Moved(h.flights[i], h.arrays[h.flights[i].arr][h.flights[i].pos], answer)
    requires f.pos < |h.arrays[f.arr]|
    ensures Sound(Recorded(h, i, answer).(flights := h.flights[i := f]))
  {
    var h' := Recorded(h, i, answer).(flights := h.flights[i := f]);
    AnswerDelivers(h, i, answer);
    forall j | 0 <= j < |h'.flights|
      ensures FlightOk(h', h'.flights[j]) && Hold(h.arrays, h'.flights[j]) <= Hold(h.arrays, h.flights[j])
    {
      AnswerKeepsApart(h, i, answer, j);
      assert FlightOk(Recorded(h, i, answer), h'.flights[j]);
    }
    forall j, k | 0 <= j < k < |h'.flights| ensures Hold(h'.arrays, h'.flights[j]) !! Hold(h'.arrays, h'.flights[k]) {
      assert Hold(h.arrays, h.flights[j]) !! Hold(h.arrays, h.flights[k]);
    }
  }

  function Shifted(i: nat, j: nat): nat
  {
    if j < i then j else j + 1
  }

  lemma OtherOk(h: Heap, i: nat, answer: Answer, j: nat)
    requires Sound(h) && i < |h.flights| && j < |h.flights| && j != i
    ensures FlightOk(Recorded(h, i, answer).(flights := Without(h.flights, i)), h.flights[j])
  {
    AnswerKeepsApart(h, i, answer, j);
    assert FlightOk(Recorded(h, i, answer), h.flights[j]);
  }

  /** The flushes that go on when one has landed. */
  lemma RestOk(h: Heap, i: nat, answer: Answer)
    requires Sound(h) && i < |h.flights|
    ensures var h' := Recorded(h, i, answer).(flights := Without(h.flights, i));
            Stands(h') && FlightsOk(h')
  {
    var rest := Without(h.flights, i);
    var h' := Recorded(h, i, answer).(flights := rest);
    assert forall j: nat :: j < |rest| ==> rest[j] == h.flights[Shifted(i, j)];
    forall j: nat | j < |rest| ensures FlightOk(h', rest[j]) {
      OtherOk(h, i, answer, Shifted(i, j));
    }
    forall j: nat, k: nat | j < k < |rest| ensures Hold(h.arrays, rest[j]) !! Hold(h.arrays, rest[k]) {
      StillApart(h, i, j, k);
    }
  }

  lemma StillApart(h: Heap, i: nat, j: nat, k: nat)
    requires Stands(h) && FlightsOk(h) && i < |h.flights| && j < k < |h.flights| - 1
    ensures Hold(h.arrays, h.flights[Shifted(i, j)]) !! Hold(h.arrays, h.flights[Shifted(i, k)])
  {
    assert Shifted(i, j) < Shifted(i, k);
  }

  lemma AnswerLands(h: Heap, i: nat, answer: Answer, f: Flight)
    requires Sound(h) && i < |h.flights| && f == Moved(h.flights[i], h.arrays[h.flights[i].arr][h.flights[i].pos], answer)
    requires f.pos == |h.arrays[f.arr]|
    ensures Sound(Put(Recorded(h, i, answer).(flights := Without(h.flights, i)), f.kept))
  {
    var h' := Recorded(h, i, answer).(flights := Without(h.flights, i));
    AnswerDelivers(h, i, answer);
    RestOk(h, i, answer);
    AnswerKeepsApart(h, i, answer, i);
    assert FlightOk(Recorded(h, i, answer), f);
    PutIsSound(h', f.kept);
  }

  lemma AnswerIsSound(h: Heap, i: nat, answer: Answer)
    requires Sound(h) && i < |h.flights|
    ensures Sound(Step(h, Answered(i, answer)))
  {
    var f := Moved(h.flights[i], h.arrays[h.flights[i].arr][h.flights[i].pos], answer);
    if f.pos < |h.arrays[f.arr]| {
      AnswerStays(h, i, answer, f);
    } else {
      AnswerLands(h, i, answer, f);
    }
  }

  lemma BeginIsSound(h: Heap)
    requires Sound(h) && Queue(h) != [] && SafeToBegin(h)
    ensures Sound(Step(h, Begin))
  {
    var f := Flight(h.cur, 0, []);
    assert Ahead(h.arrays, f) == Queue(h) && Hold(h.arrays, f) == Ids(Queue(h));
  }

  // ---------------------------------------------------------------- queueing during a flush

  lemma {:induction false} WithoutPatchIds(entries: seq<Entry>, ep: string)
    requires DistinctIds(entries)
    ensures DistinctIds(WithoutPatch(entries, ep)) && Ids(WithoutPatch(entries, ep)) <= Ids(entries)
  {
    if entries != [] {
      var n := |entries| - 1;
      var before := WithoutPatch(entries[..n], ep);
      WithoutPatchIds(entries[..n], ep);
      assert entries == entries[..n] + [entries[n]];
      IdsAppend(entries[..n], [entries[n]]);
      IdsAppend(before, [entries[n]]);
      forall k | 0 <= k < n ensures entries[..n][k].id != entries[n].id {
        assert entries[..n][k] == entries[k];
      }
      KeptDistinct(before, entries[n]);
    }
  }

  lemma EnqueuedIds(entries: seq<Entry>, e: Entry)
    requires DistinctIds(entries) && e.id !in Ids(entries)
    ensures DistinctIds(Enqueued(entries, e)) && Ids(Enqueued(entries, e)) <= Ids(entries) + {e.id}
  {
    var before := if e.verb == "PATCH" then WithoutPatch(entries, e.endpoint) else entries;
    WithoutPatchIds(entries, e.endpoint);
    KeptDistinct(before, e);
    IdsAppend(before, [e]);
    assert Ids([e]) == {e.id} by { IdsHas([e], 0); }
  }

  lemma PushKeepsHold(arrays: seq<seq<Entry>>, cur: nat, e: Entry, f: Flight)
    requires cur < |arrays| && f.arr < |arrays| && f.pos < |arrays[f.arr]|
    ensures var pushed := arrays[cur := arrays[cur] + [e]];
            && Ids(Ahead(pushed, f)) == (if f.arr == cur then Ids(Ahead(arrays, f)) + {e.id} else Ids(Ahead(arrays, f)))
  {
    var pushed := arrays[cur := arrays[cur] + [e]];
    if f.arr == cur {
      assert Ahead(pushed, f) == Ahead(arrays, f) + [e];
      IdsAppend(Ahead(arrays, f), [e]);
      assert Ids([e]) == {e.id} by { IdsHas([e], 0); }
    } else {
      assert Ahead(pushed, f) == Ahead(arrays, f);
    }
  }

  lemma LastIsHeld(arrays: seq<seq<Entry>>, f: Flight)
    requires f.arr < |arrays| && f.pos < |arrays[f.arr]|
    ensures arrays[f.arr][|arrays[f.arr]| - 1].id in Hold(arrays, f)
  {
    IdsHas(Ahead(arrays, f), |Ahead(arrays, f)| - 1);
  }

  /** Flushes of one array share its last entry, so those that are apart walk over different arrays. */
  lemma ApartMeansOther(h: Heap, i: nat, j: nat)
    requires Sound(h) && i < j < |h.flights|
    ensures h.flights[i].arr != h.flights[j].arr
  {
    var f, g := h.flights[i], h.flights[j];
    assert Hold(h.arrays, f) !! Hold(h.arrays, g);
    LastIsHeld(h.arrays, f);
    LastIsHeld(h.arrays, g);
  }

  lemma PushFlight(h: Heap, e: Entry, f: Flight)
    requires Sound(h) && e.id !in h.used && f in h.flights
    ensures FlightOk(h.(used := h.used + {e.id}, arrays := h.arrays[h.cur := Queue(h) + [e]]), f)
  {
    var i :| 0 <= i < |h.flights| && h.flights[i] == f;
    assert FlightOk(h, h.flights[i]);
    PushKeepsHold(h.arrays, h.cur, e, f);
  }

  lemma PushIsSound(h: Heap, e: Entry)
    requires Sound(h) && e.id !in h.used
    ensures Sound(h.(used := h.used + {e.id}, arrays := h.arrays[h.cur := Queue(h) + [e]]))
  {
    var h' := h.(used := h.used + {e.id}, arrays := h.arrays[h.cur := Queue(h) + [e]]);
    assert DistinctIds(Queue(h)) && Ids(Queue(h)) <= h.used;
    KeptDistinct(Queue(h), e);
    IdsAppend(Queue(h), [e]);
    assert Ids([e]) == {e.id} by { IdsHas([e], 0); }
    forall i | 0 <= i < |h.flights| ensures FlightOk(h', h.flights[i]) {
      PushFlight(h, e, h.flights[i]);
    }
    forall i, j | 0 <= i < j < |h.flights| ensures Hold(h'.arrays, h.flights[i]) !! Hold(h'.arrays, h.flights[j]) {
      ApartMeansOther(h, i, j);
      PushKeepsHold(h.arrays, h.cur, e, h.flights[i]);
      PushKeepsHold(h.arrays, h.cur, e, h.flights[j]);
      assert FlightOk(h, h.flights[i]) && FlightOk(h, h.flights[j]);
      assert Hold(h.arrays, h.flights[i]) !! Hold(h.arrays, h.flights[j]);
    }
  }

  lemma QueuedIsSound(h: Heap, e: Entry)
    requires Sound(h) && e.id !in h.used
    ensures Sound(Step(h, Queued(e)))
  {
    if e.verb == "PATCH" {
      var h' := h.(used := h.used + {e.id});
      EnqueuedIds(Queue(h), e);
      forall i | 0 <= i < |h.flights| ensures FlightOk(h', h.flights[i]) {
        assert FlightOk(h, h.flights[i]);
      }
      PutIsSound(h', Enqueued(Queue(h), e));
    } else {
      PushIsSound(h, e);
    }
  }

  // ---------------------------------------------------------------- runs

  /** What is asked of the moves of a run. */
  datatype Rule =
    | Anything
    | NoBegin               // no flush starts
    | Calm                  // no flush starts while another one is under way
    | Careful               // a flush starts alone, or when it is safe to
    | Sparing(id: string)   // the entry is neither given up, nor cleared, nor replaced by a newer PATCH

  ghost predicate Allows(rule: Rule, h: Heap, m: Move)
    requires Can(h, m)
  {
    match rule
    case Anything => true
    case NoBegin => !m.Begin?
    case Calm => m.Begin? ==> h.flights == []
    case Careful => m.Begin? ==> h.flights == [] || SafeToBegin(h)
    case Sparing(id) =>
      match m
      case Begin => true
      case Answered(i, answer) => answer == GivenUp ==> Asked(h, i).id != id
      case Queued(e) => id in Ids(Queue(h)) ==> id in Ids(Enqueued(Queue(h), e))
      case Cleared => false
  }

  /** The entry that a flush waits for. */
  ghost function Asked(h: Heap, i: nat): Entry
    requires Stands(h) && i < |h.flights|
  {
    h.arrays[h.flights[i].arr][h.flights[i].pos]
  }

  ghost predicate Legal(rule: Rule, h: Heap, moves: seq<Move>)
    decreases |moves|
  {
    moves == [] || (Can(h, moves[0]) && Allows(rule, h, moves[0]) && Legal(rule, Step(h, moves[0]), moves[1..]))
  }

  /** The state after the moves, as far as they can be made. */
  ghost function After(h: Heap, moves: seq<Move>): Heap
    decreases |moves|
  {
    if moves == [] || !Can(h, moves[0]) then h else After(Step(h, moves[0]), moves[1..])
  }

  lemma {:induction false} LegalAppend(rule: Rule, h: Heap, a: seq<Move>, b: seq<Move>)
    requires Legal(rule, h, a) && Legal(rule, After(h, a), b)
    ensures Legal(rule, h, a + b) && After(h, a + b) == After(After(h, a), b)
    decreases |a|
  {
    if a == [] {
      assert a + b == b;
    } else {
      assert (a + b)[0] == a[0] && (a + b)[1..] == a[1..] + b;
      LegalAppend(rule, Step(h, a[0]), a[1..], b);
    }
  }

  lemma LegalOne(rule: Rule, h: Heap, m: Move)
    requires Can(h, m) && Allows(rule, h, m)
    ensures Legal(rule, h, [m]) && After(h, [m]) == Step(h, m)
  {
    assert [m][1..] == [];
    assert Legal(rule, Step(h, m), []);
  }

  lemma {:induction false} AnyRule(rule: Rule, h: Heap, moves: seq<Move>)
    requires Legal(rule, h, moves)
    ensures Legal(Anything, h, moves)
    decreases |moves|
  {
    if moves != [] { AnyRule(rule, Step(h, moves[0]), moves[1..]); }
  }

  ghost predicate Guarded(rule: Rule)
  {
    rule == Calm || rule == Careful
  }

  lemma StepIsSound(rule: Rule, h: Heap, m: Move)
    requires Guarded(rule) && Sound(h) && Can(h, m) && Allows(rule, h, m)
    ensures Sound(Step(h, m))
  {
    match m
    case Begin => BeginIsSound(h);
    case Answered(i, answer) => AnswerIsSound(h, i, answer);
    case Queued(e) => QueuedIsSound(h, e);
    case Cleared => PutIsSound(h, []);
  }

  lemma {:induction false} StaysSound(rule: Rule, h: Heap, moves: seq<Move>)
    requires Guarded(rule) && Sound(h) && Legal(rule, h, moves)
    ensures Sound(After(h, moves))
    decreases |moves|
  {
    if moves != [] {
      StepIsSound(rule, h, moves[0]);
      StaysSound(rule, Step(h, moves[0]), moves[1..]);
    }
  }

  lemma StartIsSound(queue: seq<Entry>)
    requires DistinctIds(queue)
    ensures Sound(Start(queue))
  {
  }

  /**
   While every flush starts alone or finds the queue free of what was delivered and of what others hold, nothing
   is delivered twice, whatever is queued or cleared meanwhile.
   */
  lemma CarefulRunsDeliverOnce(queue: seq<Entry>, moves: seq<Move>)
    requires DistinctIds(queue) && Legal(Careful, Start(queue), moves)
    ensures Distinct(After(Start(queue), moves).delivered)
  {
    StartIsSound(queue);
    StaysSound(Careful, Start(queue), moves);
  }

  lemma {:induction false} CalmIsCareful(h: Heap, moves: seq<Move>)
    requires Legal(Calm, h, moves)
    ensures Legal(Careful, h, moves)
    decreases |moves|
  {
    if moves != [] { CalmIsCareful(Step(h, moves[0]), moves[1..]); }
  }

  /** In particular while no flush starts during another. */
  lemma CalmRunsDeliverOnce(queue: seq<Entry>, moves: seq<Move>)
    requires DistinctIds(queue) && Legal(Calm, Start(queue), moves)
    ensures Distinct(After(Start(queue), moves).delivered)
  {
    CalmIsCareful(Start(queue), moves);
    CarefulRunsDeliverOnce(queue, moves);
  }

  // ---------------------------------------------------------------- letting flushes end

  ghost function IdsInOrder(entries: seq<Entry>): seq<string>
  {
    seq(|entries|, k requires 0 <= k < |entries| => entries[k].id)
  }

  ghost function Reply(taken: bool): Answer
  {
    if taken then Taken else Kept
  }

  /** What becomes of the heap when the server takes, or refuses, everything ahead of one flush. */
  ghost function Drained(h: Heap, i: nat, taken: bool): Heap
    requires Stands(h) && i < |h.flights|
  {
    var f := h.flights[i];
    var ahead := Ahead(h.arrays, f);
    Put(h.(delivered := h.delivered + (if taken then IdsInOrder(ahead) else []), flights := Without(h.flights, i)),
        f.kept + if taken then [] else ahead)
  }

  lemma DrainStep(h: Heap, i: nat, taken: bool)
    requires Stands(h) && i < |h.flights| && h.flights[i].pos + 1 < |h.arrays[h.flights[i].arr]|
    ensures var next := Step(h, Answered(i, Reply(taken)));
            && Stands(next) && i < |next.flights| && Drained(next, i, taken) == Drained(h, i, taken)
            && next.flights[i].pos == h.flights[i].pos + 1 && next.flights[i].arr == h.flights[i].arr
            && next.arrays == h.arrays
  {
    var f := h.flights[i];
    var next := Step(h, Answered(i, Reply(taken)));
    var ahead := Ahead(h.arrays, f);
    assert Without(next.flights, i) == Without(h.flights, i);
    assert ahead[1..] == Ahead(h.arrays, next.flights[i]);
    if taken {
      assert IdsInOrder(ahead) == [ahead[0].id] + IdsInOrder(ahead[1..]);
      assert h.delivered + ([ahead[0].id] + IdsInOrder(ahead[1..])) ==
             h.delivered + [ahead[0].id] + IdsInOrder(ahead[1..]);
    } else {
      assert f.kept + ahead == f.kept + [ahead[0]] + ahead[1..];
      assert h.delivered + [] == h.delivered;
    }
  }

  lemma DrainLast(h: Heap, i: nat, taken: bool)
    requires Stands(h) && i < |h.flights| && h.flights[i].pos + 1 == |h.arrays[h.flights[i].arr]|
    ensures Step(h, Answered(i, Reply(taken))) == Drained(h, i, taken)
  {
    var ahead := Ahead(h.arrays, h.flights[i]);
    assert ahead == [Asked(h, i)] && IdsInOrder(ahead) == [ahead[0].id];
    assert h.delivered + [] == h.delivered && h.flights[i].kept + [] == h.flights[i].kept;
  }

  lemma {:induction false} Drain(rule: Rule, h: Heap, i: nat, taken: bool) returns (moves: seq<Move>)
    requires Stands(h) && i < |h.flights|
    ensures Legal(rule, h, moves) && After(h, moves) == Drained(h, i, taken)
    decreases |h.arrays[h.flights[i].arr]| - h.flights[i].pos
  {
    var m := Answered(i, Reply(taken));
    LegalOne(rule, h, m);
    if h.flights[i].pos + 1 < |h.arrays[h.flights[i].arr]| {
      DrainStep(h, i, taken);
      var rest := Drain(rule, Step(h, m), i, taken);
      LegalAppend(rule, h, [m], rest);
      moves := [m] + rest;
    } else {
      DrainLast(h, i, taken);
      moves := [m];
    }
  }

  lemma DrainedStands(h: Heap, i: nat, taken: bool)
    requires Stands(h) && i < |h.flights|
    ensures Stands(Drained(h, i, taken))
  {
  }

  /** The other flushes are as before; those behind it move up. */
  lemma DrainedOther(h: Heap, i: nat, taken: bool, j: nat)
    requires Stands(h) && i < |h.flights| && j < |h.flights| && j != i
    ensures var g, k := Drained(h, i, taken), if j < i then j else j - 1;
            && Stands(g) && k < |g.flights| && g.flights[k] == h.flights[j] && h.arrays <= g.arrays
            && Ahead(g.arrays, g.flights[k]) == Ahead(h.arrays, h.flights[j])
  {
    DrainedStands(h, i, taken);
  }

  /** Every flush but one comes to its end. */
  lemma {:induction false} DrainOthers(rule: Rule, h: Heap, i: nat, taken: bool) returns (moves: seq<Move>)
    requires Stands(h) && i < |h.flights|
    ensures Legal(rule, h, moves)
    ensures var g := After(h, moves);
            && Stands(g) && g.flights == [h.flights[i]] && h.arrays <= g.arrays
            && h.delivered <= g.delivered && (!taken ==> g.delivered == h.delivered)
    decreases |h.flights|
  {
    if |h.flights| == 1 {
      moves := [];
    } else {
      var k := if i == 0 then 1 else 0;
      var i' := if i == 0 then 0 else i - 1;
      var first := Drain(rule, h, k, taken);
      var g := Drained(h, k, taken);
      DrainedOther(h, k, taken, i);
      var rest := DrainOthers(rule, g, i', taken);
      LegalAppend(rule, h, first, rest);
      moves := first + rest;
    }
  }

  // ---------------------------------------------------------------- another flush

  lemma Repeats(ids: seq<string>, more: seq<string>, id: string)
    requires id in ids && id in more
    ensures !Distinct(ids + more)
  {
    var i :| 0 <= i < |ids| && ids[i] == id;
    var j :| 0 <= j < |more| && more[j] == id;
    assert (ids + more)[i] == (ids + more)[|ids| + j];
  }

  lemma InOrderHas(entries: seq<Entry>, id: string)
    requires id in Ids(entries)
    ensures id in IdsInOrder(entries)
  {
    var k :| 0 <= k < |entries| && entries[k].id == id;
    assert IdsInOrder(entries)[k] == id;
  }

  ghost predicate DeliversTwice(rule: Rule, h: Heap)
  {
    exists moves :: Legal(rule, h, moves) && !Distinct(After(h, moves).delivered)
  }

  lemma TwiceNow(rule: Rule, h: Heap, i: nat, id: string)
    requires Stands(h) && i < |h.flights| && id in h.delivered && id in Ids(Ahead(h.arrays, h.flights[i]))
    ensures DeliversTwice(rule, h)
  {
    var moves := Drain(rule, h, i, true);
    InOrderHas(Ahead(h.arrays, h.flights[i]), id);
    Repeats(h.delivered, IdsInOrder(Ahead(h.arrays, h.flights[i])), id);
  }

  lemma TwiceLater(rule: Rule, h: Heap, moves: seq<Move>)
    requires Legal(rule, h, moves) && DeliversTwice(rule, After(h, moves))
    ensures DeliversTwice(rule, h)
  {
    var more :| Legal(rule, After(h, moves), more) && !Distinct(After(After(h, moves), more).delivered);
    LegalAppend(rule, h, moves, more);
  }

  lemma DrainedDelivers(h: Heap, i: nat, id: string)
    requires Stands(h) && i < |h.flights| && id in Ids(Ahead(h.arrays, h.flights[i]))
    ensures Stands(Drained(h, i, true)) && id in Drained(h, i, true).delivered
  {
    DrainedStands(h, i, true);
    InOrderHas(Ahead(h.arrays, h.flights[i]), id);
  }

  /** Two flushes have the entry ahead of them: both deliver it. */
  lemma TwiceAhead(rule: Rule, h: Heap, i: nat, id: string)
    requires Stands(h) && i < |h.flights| - 1
    requires id in Ids(Ahead(h.arrays, h.flights[i])) && id in Ids(Ahead(h.arrays, h.flights[|h.flights| - 1]))
    ensures DeliversTwice(rule, h)
  {
    var moves := Drain(rule, h, i, true);
    var h', last := Drained(h, i, true), |h.flights| - 1;
    DrainedDelivers(h, i, id);
    DrainedOther(h, i, true, last);
    TwiceNow(rule, h', last - 1, id);
    TwiceLater(rule, h, moves);
  }

  /** The last flush under way has kept what was delivered, gives it back, and the next one delivers it again. */
  lemma LastGivesBack(rule: Rule, h: Heap, id: string)
    requires Guarded(rule) && Stands(h) && |h.flights| == 1 && id in h.delivered && id in Ids(h.flights[0].kept)
    ensures DeliversTwice(rule, h)
  {
    var moves := Drain(rule, h, 0, true);
    var h1 := Drained(h, 0, true);
    assert h.flights[0].kept + [] == h.flights[0].kept;
    assert h1.flights == [] && Queue(h1) == h.flights[0].kept && id in h1.delivered;
    var h2 := Step(h1, Begin);
    assert Ahead(h2.arrays, h2.flights[0]) == Queue(h1);
    TwiceNow(rule, h2, 0, id);
    LegalOne(rule, h1, Begin);
    TwiceLater(rule, h1, [Begin]);
    TwiceLater(rule, h, moves);
  }

  /** The same with others under way, which end first. */
  lemma GivenBack(rule: Rule, h: Heap, i: nat, id: string)
    requires Guarded(rule) && Stands(h) && i < |h.flights| && id in h.delivered && id in Ids(h.flights[i].kept)
    ensures DeliversTwice(rule, h)
  {
    var moves := DrainOthers(rule, h, i, true);
    LastGivesBack(rule, After(h, moves), id);
    TwiceLater(rule, h, moves);
  }

  /** One flush has kept the entry, another has it ahead: it is delivered, given back and delivered again. */
  lemma TwiceKept(rule: Rule, h: Heap, i: nat, id: string)
    requires Guarded(rule) && Stands(h) && i < |h.flights| - 1
    requires id in Ids(h.flights[i].kept) && id in Ids(Ahead(h.arrays, h.flights[|h.flights| - 1]))
    ensures DeliversTwice(rule, h)
  {
    var last := |h.flights| - 1;
    var moves := Drain(rule, h, last, true);
    DrainedDelivers(h, last, id);
    DrainedOther(h, last, true, i);
    GivenBack(rule, Drained(h, last, true), i, id);
    TwiceLater(rule, h, moves);
  }

  /**
   A flush starts while any number of others is under way. From then on nothing can be delivered twice, whether
   later flushes start alone or with the same care, exactly when no entry of the queue has been delivered or is
   in the hands of another flush.
   */
  lemma SecondFlushExactly(rule: Rule, h: Heap)
    requires Guarded(rule) && Sound(h) && Queue(h) != []
    ensures !DeliversTwice(rule, Step(h, Begin)) <==> SafeToBegin(h)
  {
    var h' := Step(h, Begin);
    if SafeToBegin(h) {
      BeginIsSound(h);
      forall moves | Legal(rule, h', moves) ensures Distinct(After(h', moves).delivered) {
        StaysSound(rule, h', moves);
      }
    } else {
      UnsafeDeliversTwice(rule, h);
    }
  }

  lemma UnsafeDeliversTwice(rule: Rule, h: Heap)
    requires Guarded(rule) && Stands(h) && Queue(h) != [] && !SafeToBegin(h)
    ensures DeliversTwice(rule, Step(h, Begin))
  {
    var h', last := Step(h, Begin), |h.flights|;
    assert Ahead(h'.arrays, h'.flights[last]) == Queue(h);
    if id :| id in Ids(Queue(h)) && id in Members(h.delivered) {
      TwiceNow(rule, h', last, id);
    } else {
      var i :| 0 <= i < |h.flights| && !(Ids(Queue(h)) !! Hold(h.arrays, h.flights[i]));
      var id :| id in Ids(Queue(h)) && id in Hold(h.arrays, h.flights[i]);
      assert h'.flights[i] == h.flights[i];
      if id in Ids(h.flights[i].kept) {
        TwiceKept(rule, h', i, id);
      } else {
        TwiceAhead(rule, h', i, id);
      }
    }
  }

  /** While the queue is still the array that a flush walks over, another one is never safe. */
  lemma SharedArrayIsUnsafe(rule: Rule, h: Heap, i: nat)
    requires Guarded(rule) && Stands(h) && i < |h.flights| && h.flights[i].arr == h.cur
    ensures !SafeToBegin(h) && DeliversTwice(rule, Step(h, Begin))
  {
    var ahead := Ahead(h.arrays, h.flights[i]);
    IdsHas(ahead, 0);
    IdsHas(Queue(h), h.flights[i].pos);
    assert ahead[0].id in Ids(Queue(h)) * Hold(h.arrays, h.flights[i]);
    UnsafeDeliversTwice(rule, h);
  }

  /** One entry, two flushes, both taken: it is delivered twice. */
  lemma OneEntryTwice(e: Entry)
    ensures var moves := [Begin, Begin, Answered(0, Taken), Answered(0, Taken)];
            var h := After(Start([e]), moves);
            Legal(Anything, Start([e]), moves) && h.delivered == [e.id, e.id] && h.flights == []
  {
    var h1 := Step(Start([e]), Begin);
    var h2 := Step(h1, Begin);
    var h3 := Step(h2, Answered(0, Taken));
    LegalOne(Anything, h3, Answered(0, Taken));
    LegalFirst(Anything, h2, Answered(0, Taken), [Answered(0, Taken)]);
    LegalFirst(Anything, h1, Begin, [Answered(0, Taken), Answered(0, Taken)]);
    LegalFirst(Anything, Start([e]), Begin, [Begin, Answered(0, Taken), Answered(0, Taken)]);
  }

  lemma LegalFirst(rule: Rule, h: Heap, m: Move, rest: seq<Move>)
    requires Can(h, m) && Allows(rule, h, m) && Legal(rule, Step(h, m), rest)
    ensures Legal(rule, h, [m] + rest) && After(h, [m] + rest) == After(Step(h, m), rest)
  {
    assert ([m] + rest)[1..] == rest;
  }

  // ---------------------------------------------------------------- what is lost

  /** The entry was not delivered and nobody has it any more. */
  ghost predicate Gone(h: Heap, id: string)
  {
    && Stands(h) && id !in h.delivered && id !in Ids(Queue(h))
    && forall i :: 0 <= i < |h.flights| ==> id !in Hold(h.arrays, h.flights[i])
  }

  /** The entry may get lost although it is never given up, cleared or replaced by a newer PATCH. */
  ghost predicate Losable(h: Heap, id: string)
  {
    exists moves :: Legal(Sparing(id), h, moves) && Gone(After(h, moves), id)
  }

  ghost predicate HeldByAll(h: Heap, id: string)
    requires Stands(h)
  {
    forall i :: 0 <= i < |h.flights| ==> id in Hold(h.arrays, h.flights[i])
  }

  /** Delivered, or in the queue and in the hands of every flush, so that each of them gives it back. */
  ghost predicate Carried(h: Heap, id: string)
  {
    Stands(h) && (id in h.delivered || (id in Ids(Queue(h)) && HeldByAll(h, id)))
  }

  lemma StepStands(h: Heap, m: Move)
    requires Can(h, m)
    ensures Stands(Step(h, m))
  {
  }

  lemma AskedOrAhead(arrays: seq<seq<Entry>>, f: Flight)
    requires f.arr < |arrays| && f.pos < |arrays[f.arr]|
    ensures Ids(Ahead(arrays, f)) == {arrays[f.arr][f.pos].id} + Ids(Ahead(arrays, f.(pos := f.pos + 1)))
  {
    var e := arrays[f.arr][f.pos];
    assert Ahead(arrays, f) == [e] + Ahead(arrays, f.(pos := f.pos + 1));
    IdsAppend([e], Ahead(arrays, f.(pos := f.pos + 1)));
    assert Ids([e]) == {e.id} by { IdsHas([e], 0); }
  }

  /** An answer takes from a flush at most the entry asked about, and nothing when that is kept. */
  lemma MovedKeeps(arrays: seq<seq<Entry>>, f: Flight, answer: Answer, id: string)
    requires f.arr < |arrays| && f.pos < |arrays[f.arr]| && id in Hold(arrays, f)
    requires answer == Kept || arrays[f.arr][f.pos].id != id
    ensures id in Hold(arrays, Moved(f, arrays[f.arr][f.pos], answer))
  {
    var e := arrays[f.arr][f.pos];
    AskedOrAhead(arrays, f);
    IdsAppend(f.kept, [e]);
    assert Ids([e]) == {e.id} by { IdsHas([e], 0); }
    assert Ahead(arrays, Moved(f, e, answer)) == Ahead(arrays, f.(pos := f.pos + 1));
  }

  lemma AnswerCarries(h: Heap, i: nat, answer: Answer, id: string)
    requires Stands(h) && i < |h.flights| && id in Ids(Queue(h)) && HeldByAll(h, id)
    requires answer == Kept || Asked(h, i).id != id
    ensures Carried(Step(h, Answered(i, answer)), id)
  {
    var h' := Step(h, Answered(i, answer));
    var f := Moved(h.flights[i], Asked(h, i), answer);
    assert id in Hold(h.arrays, h.flights[i]);
    MovedKeeps(h.arrays, h.flights[i], answer, id);
    StepStands(h, Answered(i, answer));
    if f.pos < |h.arrays[f.arr]| {
      assert HeldByAll(h', id);
    } else {
      assert Ahead(h.arrays, f) == [];
      forall j | 0 <= j < |h'.flights| ensures id in Hold(h'.arrays, h'.flights[j]) {
        assert h'.flights[j] == h.flights[Shifted(i, j)];
        PutKeepsHold(h.arrays, f.kept, h.flights[Shifted(i, j)]);
      }
    }
  }

  lemma QueuedCarries(h: Heap, e: Entry, id: string)
    requires Can(h, Queued(e)) && Allows(Sparing(id), h, Queued(e)) && id in Ids(Queue(h)) && HeldByAll(h, id)
    ensures Carried(Step(h, Queued(e)), id)
  {
    var h' := Step(h, Queued(e));
    StepStands(h, Queued(e));
    forall i | 0 <= i < |h'.flights| ensures id in Hold(h'.arrays, h'.flights[i]) {
      if e.verb == "PATCH" {
        PutKeepsHold(h.arrays, Enqueued(Queue(h), e), h.flights[i]);
      } else {
        PushKeepsHold(h.arrays, h.cur, e, h.flights[i]);
      }
    }
  }

  lemma CarriedStep(h: Heap, m: Move, id: string)
    requires Carried(h, id) && Can(h, m) && Allows(Sparing(id), h, m)
    ensures Carried(Step(h, m), id)
  {
    StepStands(h, m);
    if id in h.delivered {
      assert h.delivered <= Step(h, m).delivered;
    } else {
      match m
      case Begin =>
        assert Ahead(h.arrays, Flight(h.cur, 0, [])) == Queue(h);
      case Answered(i, answer) =>
        if answer == Taken && Asked(h, i).id == id {
          assert Step(h, m).delivered == h.delivered + [id];
        } else {
          AnswerCarries(h, i, answer, id);
        }
      case Queued(e) => QueuedCarries(h, e, id);
      case Cleared => assert false;
    }
  }

  lemma {:induction false} StaysCarried(h: Heap, moves: seq<Move>, id: string)
    requires Carried(h, id) && Legal(Sparing(id), h, moves)
    ensures Carried(After(h, moves), id)
    decreases |moves|
  {
    if moves != [] {
      CarriedStep(h, moves[0], id);
      StaysCarried(Step(h, moves[0]), moves[1..], id);
    }
  }

  /** A flush without the entry ends last, and everything else has been refused. */
  lemma LostToFlight(h: Heap, i: nat, id: string)
    requires Stands(h) && i < |h.flights| && id !in Hold(h.arrays, h.flights[i]) && id !in h.delivered
    ensures Losable(h, id)
  {
    var rule := Sparing(id);
    var moves := DrainOthers(rule, h, i, false);
    var g := After(h, moves);
    var f := h.flights[i];
    var more := Drain(rule, g, 0, false);
    LegalAppend(rule, h, moves, more);
    var end := Drained(g, 0, false);
    assert Ahead(g.arrays, f) == Ahead(h.arrays, f);
    assert Queue(end) == f.kept + Ahead(h.arrays, f);
    IdsAppend(f.kept, Ahead(h.arrays, f));
    assert end.delivered == h.delivered && end.flights == [];
    assert Gone(After(h, moves + more), id);
  }

  /**
   With any number of flushes under way, a waiting entry may get lost without being given up, cleared or
   replaced exactly when some flush under way does not hold it. Further answers are enough.
   */
  lemma LosableExactly(h: Heap, id: string)
    requires Stands(h) && id in Ids(Queue(h)) && id !in h.delivered
    ensures Losable(h, id) <==> !HeldByAll(h, id)
  {
    if HeldByAll(h, id) {
      forall moves | Legal(Sparing(id), h, moves) ensures !Gone(After(h, moves), id) {
        StaysCarried(h, moves, id);
      }
    } else {
      var i :| 0 <= i < |h.flights| && id !in Hold(h.arrays, h.flights[i]);
      LostToFlight(h, i, id);
    }
  }

  // ---------------------------------------------------------------- an entry queued during flushes

  /** Every id anywhere has been used. */
  ghost predicate Known(h: Heap)
  {
    && Stands(h) && Members(h.delivered) <= h.used
    && (forall a :: 0 <= a < |h.arrays| ==> Ids(h.arrays[a]) <= h.used)
    && (forall i :: 0 <= i < |h.flights| ==> Ids(h.flights[i].kept) <= h.used)
  }

  lemma AnswerIsKnown(h: Heap, i: nat, answer: Answer)
    requires Known(h) && i < |h.flights|
    ensures Known(Step(h, Answered(i, answer)))
  {
    var e := Asked(h, i);
    StepStands(h, Answered(i, answer));
    IdsHas(h.arrays[h.flights[i].arr], h.flights[i].pos);
    assert e.id in h.used;
    MembersSnoc(h.delivered, e.id);
    IdsAppend(h.flights[i].kept, [e]);
    assert Ids([e]) == {e.id} by { IdsHas([e], 0); }
    var h' := Step(h, Answered(i, answer));
    assert Ids(Moved(h.flights[i], e, answer).kept) <= h.used;
    forall j | 0 <= j < |h'.flights| ensures Ids(h'.flights[j].kept) <= h.used {
      if |h'.flights| < |h.flights| { assert h'.flights[j] == h.flights[Shifted(i, j)]; }
    }
  }

  lemma {:induction false} FewerIds(entries: seq<Entry>, ep: string)
    ensures Ids(WithoutPatch(entries, ep)) <= Ids(entries)
  {
    WithoutPatchMembers(entries, ep);
    forall id | id in Ids(WithoutPatch(entries, ep)) ensures id in Ids(entries) {
      var k :| 0 <= k < |WithoutPatch(entries, ep)| && WithoutPatch(entries, ep)[k].id == id;
      assert WithoutPatch(entries, ep)[k] in entries;
    }
  }

  lemma QueuedIds(entries: seq<Entry>, e: Entry)
    ensures e.id in Ids(Enqueued(entries, e)) && Ids(Enqueued(entries, e)) <= Ids(entries) + {e.id}
  {
    var before := if e.verb == "PATCH" then WithoutPatch(entries, e.endpoint) else entries;
    FewerIds(entries, e.endpoint);
    IdsAppend(before, [e]);
    assert Ids([e]) == {e.id} by { IdsHas([e], 0); }
  }

  lemma StepIsKnown(h: Heap, m: Move)
    requires Known(h) && Can(h, m)
    ensures Known(Step(h, m))
  {
    StepStands(h, m);
    match m
    case Begin =>
    case Answered(i, answer) => AnswerIsKnown(h, i, answer);
    case Queued(e) => QueuedIds(Queue(h), e);
    case Cleared =>
  }

  lemma {:induction false} AfterIsKnown(h: Heap, moves: seq<Move>)
    requires Known(h) && Legal(Anything, h, moves)
    ensures Known(After(h, moves))
    decreases |moves|
  {
    if moves != [] {
      StepIsKnown(h, moves[0]);
      AfterIsKnown(Step(h, moves[0]), moves[1..]);
    }
  }

  /** Some run leads here. */
  ghost predicate Reached(h: Heap)
  {
    exists queue, moves :: Legal(Anything, Start(queue), moves) && After(Start(queue), moves) == h
  }

  lemma ReachedIsKnown(h: Heap)
    requires Reached(h)
    ensures Known(h)
  {
    var queue, moves :| Legal(Anything, Start(queue), moves) && After(Start(queue), moves) == h;
    AfterIsKnown(Start(queue), moves);
  }

  lemma ReachedOnwards(h: Heap, moves: seq<Move>)
    requires Reached(h) && Legal(Anything, h, moves)
    ensures Reached(After(h, moves))
  {
    var queue, before :| Legal(Anything, Start(queue), before) && After(Start(queue), before) == h;
    LegalAppend(Anything, Start(queue), before, moves);
  }

  /** A flush holds the entry just queued exactly when it walks over the array that is now the queue. */
  lemma HoldsQueued(h: Heap, e: Entry, i: nat)
    requires Known(h) && Can(h, Queued(e)) && i < |h.flights|
    ensures var h' := Step(h, Queued(e));
            Stands(h') && (e.id in Hold(h'.arrays, h.flights[i]) <==> h.flights[i].arr == h'.cur)
  {
    var f := h.flights[i];
    StepStands(h, Queued(e));
    AheadIsKnown(h, f);
    if e.verb == "PATCH" {
      PutKeepsHold(h.arrays, Enqueued(Queue(h), e), f);
    } else {
      PushKeepsHold(h.arrays, h.cur, e, f);
    }
  }

  lemma AheadIsKnown(h: Heap, f: Flight)
    requires Known(h) && f in h.flights
    ensures Hold(h.arrays, f) <= h.used
  {
    var arr := h.arrays[f.arr];
    assert arr == arr[..f.pos] + Ahead(h.arrays, f);
    IdsAppend(arr[..f.pos], Ahead(h.arrays, f));
  }

  /**
   In every run, an entry may get lost from the moment it is queued, without being given up, cleared or
   replaced, exactly when some flush under way walks over an array that is not the queue it was put on.
   */
  lemma QueuedLosableExactly(h: Heap, e: Entry)
    requires Reached(h) && Can(h, Queued(e))
    ensures var h' := Step(h, Queued(e));
            Losable(h', e.id) <==> exists i :: 0 <= i < |h.flights| && h.flights[i].arr != h'.cur
  {
    var h' := Step(h, Queued(e));
    ReachedIsKnown(h);
    StepStands(h, Queued(e));
    QueuedIds(Queue(h), e);
    assert e.id !in h'.delivered;
    LosableExactly(h', e.id);
    forall i | 0 <= i < |h.flights| ensures e.id in Hold(h'.arrays, h.flights[i]) <==> h.flights[i].arr == h'.cur {
      HoldsQueued(h, e, i);
    }
  }

  const AT_START: Flight := Flight(0, 0, [])

  /** Two flushes of one entry, and the first has given it back. */
  ghost function GivenBackOnce(a: Entry): Heap
  {
    Heap([[a], [a]], 1, [AT_START], [], {a.id})
  }

  lemma TwoFlushes(rule: Rule, a: Entry)
    requires rule.Sparing?
    ensures var moves := [Begin, Begin, Answered(0, Kept)];
            Legal(rule, Start([a]), moves) && After(Start([a]), moves) == GivenBackOnce(a)
  {
    var h1, h2 := Step(Start([a]), Begin), Heap([[a]], 0, [AT_START, AT_START], [], {a.id});
    assert Ids([a]) == {a.id} by { IdsHas([a], 0); }
    assert Step(h1, Begin) == h2;
    assert [] + [a] == [a] && Without(h2.flights, 0) == [AT_START] && [[a]] + [[a]] == [[a], [a]];
    assert Step(h2, Answered(0, Kept)) == GivenBackOnce(a);
    LegalOne(rule, h2, Answered(0, Kept));
    LegalFirst(rule, h1, Begin, [Answered(0, Kept)]);
    LegalFirst(rule, Start([a]), Begin, [Begin, Answered(0, Kept)]);
  }

  lemma PostThenEnd(a: Entry, post: Entry)
    requires post.verb != "PATCH" && post.id != a.id
    ensures var moves := [Queued(post), Answered(0, Kept)];
            && Legal(Sparing(post.id), GivenBackOnce(a), moves)
            && After(GivenBackOnce(a), moves) == Heap([[a], [a, post], [a]], 2, [], [], {a.id, post.id})
  {
    var h3, h4 := GivenBackOnce(a), Heap([[a], [a, post]], 1, [AT_START], [], {a.id, post.id});
    assert h3.arrays[1 := [a, post]] == h4.arrays && [a] + [post] == [a, post];
    assert Step(h3, Queued(post)) == h4;
    assert [] + [a] == [a] && Without(h4.flights, 0) == [];
    LegalOne(Sparing(post.id), h4, Answered(0, Kept));
    assert h4.arrays + [[a]] == [[a], [a, post], [a]];
    QueuedIds([a], post);
    LegalFirst(Sparing(post.id), h3, Queued(post), [Answered(0, Kept)]);
  }

  /** Two flushes of one entry; the first gives it back, a POST is queued, the second ends, and the POST is gone. */
  lemma PostLostToOlderFlush(a: Entry, post: Entry)
    requires post.verb != "PATCH" && post.id != a.id
    ensures var moves := [Begin, Begin, Answered(0, Kept), Queued(post), Answered(0, Kept)];
            var h := After(Start([a]), moves);
            && Legal(Sparing(post.id), Start([a]), moves) && Gone(h, post.id)
            && h.delivered == [] && Queue(h) == [a] && h.flights == []
  {
    TwoFlushes(Sparing(post.id), a);
    PostThenEnd(a, post);
    LegalAppend(Sparing(post.id), Start([a]), [Begin, Begin, Answered(0, Kept)], [Queued(post), Answered(0, Kept)]);
    assert [Begin, Begin, Answered(0, Kept)] + [Queued(post), Answered(0, Kept)] ==
           [Begin, Begin, Answered(0, Kept), Queued(post), Answered(0, Kept)];
  }

  // ---------------------------------------------------------------- the only flush

  /** The move puts another array in the place of the queue. */
  ghost predicate Splits(m: Move)
  {
    m.Cleared? || (m.Queued? && m.e.verb == "PATCH")
  }

  ghost predicate SomeSplit(moves: seq<Move>)
  {
    exists k :: 0 <= k < |moves| && Splits(moves[k])
  }

  lemma SomeSplitHead(moves: seq<Move>)
    requires moves != []
    ensures SomeSplit(moves) <==> Splits(moves[0]) || SomeSplit(moves[1..])
  {
    if SomeSplit(moves[1..]) {
      var k :| 0 <= k < |moves[1..]| && Splits(moves[1..][k]);
      assert Splits(moves[k + 1]);
    }
    if SomeSplit(moves) && !Splits(moves[0]) {
      var k :| 0 <= k < |moves| && Splits(moves[k]);
      assert Splits(moves[1..][k - 1]);
    }
  }

  /** The only flush goes on over its array, which stops being the queue with the first such move. */
  lemma {:induction false} OnlyFlush(h: Heap, arr: nat, moves: seq<Move>)
    requires Stands(h) && |h.flights| == 1 && h.flights[0].arr == arr
    requires Legal(NoBegin, h, moves) && After(h, moves).flights != []
    ensures var g := After(h, moves);
            Stands(g) && |g.flights| == 1 && g.flights[0].arr == arr && (g.cur == arr <==> h.cur == arr && !SomeSplit(moves))
    decreases |moves|
  {
    if moves != [] {
      StepStands(h, moves[0]);
      SomeSplitHead(moves);
      if Step(h, moves[0]).flights == [] {
        NoneStays(Step(h, moves[0]), moves[1..]);
      } else {
        OnlyFlush(Step(h, moves[0]), arr, moves[1..]);
      }
    }
  }

  lemma {:induction false} NoneStays(h: Heap, moves: seq<Move>)
    requires Stands(h) && h.flights == [] && Legal(NoBegin, h, moves)
    ensures After(h, moves).flights == []
    decreases |moves|
  {
    if moves != [] {
      StepStands(h, moves[0]);
      NoneStays(Step(h, moves[0]), moves[1..]);
    }
  }

  /**
   When a flush starts alone and is the only one, an entry queued before it ends may get lost exactly when a
   PATCH was queued, or the outbox cleared, during it and no later than that entry.
   */
  lemma OnlyFlushLosesExactly(h: Heap, moves: seq<Move>, e: Entry)
    requires Reached(h) && h.flights == [] && Can(h, Begin)
    requires Legal(NoBegin, Step(h, Begin), moves) && After(Step(h, Begin), moves).flights != []
    requires Can(After(Step(h, Begin), moves), Queued(e))
    ensures Losable(Step(After(Step(h, Begin), moves), Queued(e)), e.id) <==> SomeSplit(moves) || Splits(Queued(e))
  {
    var begun := Step(h, Begin);
    var g := After(begun, moves);
    LegalOne(Anything, h, Begin);
    ReachedOnwards(h, [Begin]);
    AnyRule(NoBegin, begun, moves);
    ReachedOnwards(begun, moves);
    OnlyFlush(begun, h.cur, moves);
    QueuedLosableExactly(g, e);
  }
}
