/**
 The test runner's worker pool: a few workers share one index into the list of items, and each takes the
 next item whenever its last one has ended.
 */
module WorkerPool {
  import opened Seqs

  const DEFAULT_CONCURRENCY: real := 4.0
  const MAX_CONCURRENCY: real := 16.0

  // ---------------------------------------------------------------- how many workers

  /** The configured value read as a number; an absent one is not a number either. */
  datatype Configured = NotANumber | MinusInfinity | PlusInfinity | Finite(value: real)

  function GetTestConcurrency(configured: Configured): (r: real)
    ensures 1.0 <= r <= 16.0 && r == r.Floor as real
    ensures configured == NotANumber ==> r == 4.0
    ensures configured == MinusInfinity ==> r == 1.0
    ensures configured == PlusInfinity ==> r == 16.0
    ensures configured.Finite? ==>
              r == if configured.value < 1.0 then 1.0
                   else if configured.value >= 16.0 then 16.0
                   else configured.value.Floor as real
  {
    match configured
    case NotANumber => DEFAULT_CONCURRENCY
    case MinusInfinity => 1.0
    case PlusInfinity => MAX_CONCURRENCY
    case Finite(v) =>
      var floored := v.Floor as real;
      var atLeast := if floored > 1.0 then floored else 1.0;
      if atLeast < MAX_CONCURRENCY then atLeast else MAX_CONCURRENCY
  }

  /** The pool's size: the smaller of the two numbers as an array length, which drops a fraction. */
  function PoolSize(n: nat, concurrency: real): nat
  {
    var size := if concurrency < n as real then concurrency else n as real;
    if size < 0.0 then 0 else size.Floor
  }

  /**
   The pool has as many workers as were asked for, in whole numbers, and no more than there are items. It is empty
   exactly when the caller asks for less than one worker, or there is nothing to do.
   */
  lemma PoolIsEmptyExactly(n: nat, concurrency: real)
    ensures PoolSize(n, concurrency) == 0 <==> concurrency < 1.0 || n == 0
    ensures PoolSize(n, concurrency) <= n && (0.0 <= concurrency ==> PoolSize(n, concurrency) as real <= concurrency)
    ensures PoolSize(n, concurrency) == n || concurrency < PoolSize(n, concurrency) as real + 1.0
  {
  }

  // ---------------------------------------------------------------- the shared index

  /** What the workers share. Take is what a worker does between two waits. */
  class SharedIndex {
    var next: nat

    constructor ()
      ensures next == 0
    {
      next := 0;
    }

    method Take(n: nat) returns (taken: bool, item: nat)
      modifies this
      ensures taken == (old(next) < n)
      ensures taken ==> item == old(next) && next == old(next) + 1
      ensures !taken ==> next == old(next)
    {
      item := next;
      if next < n {
        next := next + 1;
        return true, item;
      }
      return false, item;
    }
  }

  // ---------------------------------------------------------------- all interleavings

  datatype Worker = Ready | Running(item: nat) | Returned | Rejected
  datatype Item = Untouched | InFlight(worker: nat) | Finished | Failed

  /** starts lists the items handed to run, in the order of the calls. */
  datatype State = State(next: nat, workers: seq<Worker>, items: seq<Item>, starts: seq<nat>)

  function Init(n: nat, concurrency: real): State
  {
    State(0, seq(PoolSize(n, concurrency), _ => Ready), seq(n, _ => Untouched), [])
  }

  /** A step of one worker: it goes on after a wait, or the item it runs ends, well or badly. */
  datatype Action = Resume(worker: nat) | Settle(worker: nat) | Reject(worker: nat)

  ghost predicate Enabled(s: State, a: Action)
  {
    && a.worker < |s.workers|
    && (a.Resume? ==> s.workers[a.worker].Ready?)
    && (!a.Resume? ==> s.workers[a.worker].Running? && s.workers[a.worker].item < |s.items|)
  }

  ghost function Next(s: State, a: Action): State
    requires Enabled(s, a)
  {
    var w := a.worker;
    match a
    case Resume(_) =>
      if s.next < |s.items| then
        State(s.next + 1, s.workers[w := Running(s.next)], s.items[s.next := InFlight(w)], s.starts + [s.next])
      else s.(workers := s.workers[w := Returned])
    case Settle(_) =>
      s.(workers := s.workers[w := Ready], items := s.items[s.workers[w].item := Finished])
    case Reject(_) =>
      s.(workers := s.workers[w := Rejected], items := s.items[s.workers[w].item := Failed])
  }

  ghost predicate Step(s: State, t: State)
  {
    exists a :: Enabled(s, a) && t == Next(s, a)
  }

  ghost predicate IsRun(run: seq<State>, n: nat, concurrency: real)
  {
    run != [] && run[0] == Init(n, concurrency) && forall k :: 0 <= k < |run| - 1 ==> Step(run[k], run[k + 1])
  }

  /** Nothing is running and no worker will go on: the pool's promise is settled. */
  ghost predicate Stopped(s: State)
  {
    forall w :: 0 <= w < |s.workers| ==> s.workers[w].Returned? || s.workers[w].Rejected?
  }

  ghost predicate AllFinished(s: State)
  {
    forall i :: 0 <= i < |s.items| ==> s.items[i] == Finished
  }

  ghost predicate AllRejected(s: State)
  {
    forall w :: 0 <= w < |s.workers| ==> s.workers[w].Rejected?
  }

  ghost predicate CanStep(s: State)
  {
    exists t :: Step(s, t)
  }

  ghost predicate NoneRejected(s: State)
  {
    forall w :: 0 <= w < |s.workers| ==> !s.workers[w].Rejected?
  }

  function Busy(): Worker -> int
  {
    (w: Worker) => if w.Running? then 1 else 0
  }

  function Active(): Item -> int
  {
    (i: Item) => if i.InFlight? then 1 else 0
  }

  // ---------------------------------------------------------------- what every step keeps

  /** Items are called in index order, each once: the calls so far are 0, 1, 2 and so on up to next. */
  ghost predicate InOrder(s: State)
  {
    && s.next <= |s.items| && |s.starts| == s.next
    && (forall k :: 0 <= k < s.next ==> s.starts[k] == k)
    && (forall i :: 0 <= i < |s.items| ==> (s.items[i] == Untouched <==> s.next <= i))
  }

  /** A running worker and its item point at each other. */
  ghost predicate Paired(s: State)
  {
    && (forall w :: 0 <= w < |s.workers| && s.workers[w].Running? ==>
          s.workers[w].item < |s.items| && s.items[s.workers[w].item] == InFlight(w))
    && (forall i :: 0 <= i < |s.items| && s.items[i].InFlight? ==>
          s.items[i].worker < |s.workers| && s.workers[s.items[i].worker] == Running(i))
  }

  /** A failed item has a rejected worker, and a worker that returned found nothing left. */
  ghost predicate Accounted(s: State)
  {
    && ((exists i :: 0 <= i < |s.items| && s.items[i] == Failed) ==> !NoneRejected(s))
    && ((exists w :: 0 <= w < |s.workers| && s.workers[w] == Returned) ==> s.next == |s.items|)
  }

  ghost predicate Counted(s: State)
  {
    Sum(s.items, Active()) == Sum(s.workers, Busy())
  }

  ghost predicate Inv(s: State)
  {
    InOrder(s) && Paired(s) && Accounted(s) && Counted(s)
  }

  lemma CountedStep(s: State, a: Action)
    requires Inv(s) && Enabled(s, a)
    ensures Counted(Next(s, a))
  {
    var w := a.worker;
    var t := Next(s, a);
    SumUpdate(s.workers, w, t.workers[w], Busy());
    if !a.Resume? {
      SumUpdate(s.items, s.workers[w].item, t.items[s.workers[w].item], Active());
    } else if s.next < |s.items| {
      SumUpdate(s.items, s.next, InFlight(w), Active());
    }
  }

  lemma PairedStep(s: State, a: Action)
    requires Inv(s) && Enabled(s, a)
    ensures Paired(Next(s, a))
  {
  }

  lemma AccountedStep(s: State, a: Action)
    requires Inv(s) && Enabled(s, a)
    ensures Accounted(Next(s, a))
  {
    var t := Next(s, a);
    if !NoneRejected(s) {
      var v :| 0 <= v < |s.workers| && s.workers[v].Rejected?;
      assert t.workers[v].Rejected?;
    }
    if a.Reject? { assert t.workers[a.worker].Rejected?; }
  }

  lemma InvStep(s: State, a: Action)
    requires Inv(s) && Enabled(s, a)
    ensures Inv(Next(s, a))
  {
    CountedStep(s, a);
    PairedStep(s, a);
    AccountedStep(s, a);
  }

  lemma InitInv(n: nat, concurrency: real)
    ensures Inv(Init(n, concurrency))
  {
    var s := Init(n, concurrency);
    SumOfZeros(s.items, Active());
    SumOfZeros(s.workers, Busy());
  }

  lemma {:induction false} RunInv(run: seq<State>, n: nat, concurrency: real, k: nat)
    requires IsRun(run, n, concurrency) && k < |run|
    ensures Inv(run[k]) && |run[k].items| == n && |run[k].workers| == PoolSize(n, concurrency)
  {
    if k == 0 {
      InitInv(n, concurrency);
    } else {
      RunInv(run, n, concurrency, k - 1);
      assert Step(run[k - 1], run[k]);
      var a :| Enabled(run[k - 1], a) && run[k] == Next(run[k - 1], a);
      InvStep(run[k - 1], a);
    }
  }

  // ---------------------------------------------------------------- whole runs

  /**
   At every moment of every interleaving: the items handed to run are the first ones of the list, each
   handed out once and in index order, and no more are in flight than the pool has workers.
   */
  lemma StartsAreInOrder(run: seq<State>, n: nat, concurrency: real, k: nat)
    requires IsRun(run, n, concurrency) && k < |run|
    ensures var s := run[k];
            s.next <= n && |s.starts| == s.next && (forall i :: 0 <= i < s.next ==> s.starts[i] == i) &&
            Sum(s.items, Active()) <= PoolSize(n, concurrency)
  {
    RunInv(run, n, concurrency, k);
    SumOne(run[k].workers);
    SumMonotone(run[k].workers, Busy(), One());
  }

  /**
   When all workers have stopped and no run was rejected, every item has finished - exactly when the caller
   asked for at least one worker, or there was nothing to do. With less than one worker the pool reports
   success and has run nothing.
   */
  lemma CompletesExactly(run: seq<State>, n: nat, concurrency: real)
    requires IsRun(run, n, concurrency)
    requires Stopped(run[|run| - 1]) && NoneRejected(run[|run| - 1])
    ensures AllFinished(run[|run| - 1]) <==> concurrency >= 1.0 || n == 0
  {
    var s := run[|run| - 1];
    RunInv(run, n, concurrency, |run| - 1);
    PoolIsEmptyExactly(n, concurrency);
    if PoolSize(n, concurrency) > 0 {
      assert s.workers[0] == Returned;
      forall i | 0 <= i < n
        ensures s.items[i] == Finished
      {
        assert s.items[i] != Untouched;
      }
    } else if n > 0 {
      EmptyPoolStaysPut(run, n, concurrency, |run| - 1);
      assert s.items[0] == Untouched;
    }
  }

  lemma EmptyPoolStaysPut(run: seq<State>, n: nat, concurrency: real, k: nat)
    requires IsRun(run, n, concurrency) && k < |run| && PoolSize(n, concurrency) == 0
    ensures run[k] == Init(n, concurrency)
  {
    if k > 0 {
      EmptyPoolStaysPut(run, n, concurrency, k - 1);
    }
  }

  /** A rejected run stops its worker only: the others go on, so items are left over only if all reject. */
  lemma LeftOverOnlyIfAllReject(run: seq<State>, n: nat, concurrency: real)
    requires IsRun(run, n, concurrency) && Stopped(run[|run| - 1])
    requires run[|run| - 1].next < n
    ensures AllRejected(run[|run| - 1])
  {
    RunInv(run, n, concurrency, |run| - 1);
  }

  // ---------------------------------------------------------------- every run ends

  function Work(): Worker -> int
  {
    (w: Worker) => if w.Running? then 2 else if w.Ready? then 1 else 0
  }

  ghost function Measure(s: State): int
  {
    3 * (|s.items| - s.next) + Sum(s.workers, Work())
  }

  lemma StepConsumes(s: State, a: Action)
    requires Inv(s) && Enabled(s, a)
    ensures Measure(Next(s, a)) < Measure(s)
  {
    SumUpdate(s.workers, a.worker, Next(s, a).workers[a.worker], Work());
  }

  lemma MeasureBounds(s: State)
    requires Inv(s)
    ensures 0 <= Measure(s)
  {
    SumNonNegative(s.workers, Work());
  }

  lemma {:induction false} RunMeasure(run: seq<State>, n: nat, concurrency: real, k: nat)
    requires IsRun(run, n, concurrency) && k < |run|
    ensures Measure(run[k]) + k <= 3 * n + PoolSize(n, concurrency)
  {
    if k == 0 {
      var s := Init(n, concurrency);
      SumOne(s.workers);
      SumMonotone(s.workers, Work(), One());
    } else {
      RunMeasure(run, n, concurrency, k - 1);
      RunInv(run, n, concurrency, k - 1);
      assert Step(run[k - 1], run[k]);
      var a :| Enabled(run[k - 1], a) && run[k] == Next(run[k - 1], a);
      StepConsumes(run[k - 1], a);
    }
  }

  /** No run has more than three steps an item and one a worker, and until then some worker can go on. */
  lemma EveryRunEnds(run: seq<State>, n: nat, concurrency: real)
    requires IsRun(run, n, concurrency)
    ensures |run| <= 3 * n + PoolSize(n, concurrency) + 1
    ensures Stopped(run[|run| - 1]) <==> !CanStep(run[|run| - 1])
  {
    var last := |run| - 1;
    RunMeasure(run, n, concurrency, last);
    RunInv(run, n, concurrency, last);
    MeasureBounds(run[last]);
    var s := run[last];
    if !Stopped(s) {
      var w: nat :| w < |s.workers| && !s.workers[w].Returned? && !s.workers[w].Rejected?;
      var a := if s.workers[w].Ready? then Resume(w) else Settle(w);
      assert Enabled(s, a);
      assert Step(s, Next(s, a));
    }
  }

  /** With less than one worker asked for, the pool is done before it has begun. */
  lemma BelowOneRunsNothing(n: nat, concurrency: real)
    requires n > 0 && concurrency < 1.0
    ensures var s := Init(n, concurrency);
            IsRun([s], n, concurrency) && Stopped(s) && NoneRejected(s) && !CanStep(s) && s.starts == [] && !AllFinished(s)
  {
    var s := Init(n, concurrency);
    PoolIsEmptyExactly(n, concurrency);
    assert s.workers == [] && s.items[0] == Untouched;
    EveryRunEnds([s], n, concurrency);
  }
}
