/**
 Mission progress: retry attempts are collapsed under the task they retry, which then has the best status
 of them all; coordination work and cancelled tasks are left out; the rest is counted.
 */
module MissionProgress {
  import opened Options
  import opened Seqs
  import opened Strings

  datatype Worker = Worker(prUrl: string)

  /** A task row. For all fields but taskClass, a missing value and an empty one are treated alike. */
  datatype Task = Task(
    id: string, status: string, taskClass: Option<string>, kind: string, title: string, mode: string,
    category: string, parent: string, workers: seq<Worker>)

  datatype TaskType = Retry | Review | ReviewRetry

  // ---------------------------------------------------------------- kinds of rows

  function DeriveTaskType(t: Task): Option<TaskType>
  {
    var title := Lower(t.title);
    if StartsWith(title, "[reviewer retry") then Some(ReviewRetry)
    else if StartsWith(title, "[reviewer]") then Some(Review)
    else if StartsWith(title, "[ci retry") || StartsWith(title, "[retry") then Some(Retry)
    else if t.parent == "" then None
    else if t.mode == "execution" then None
    else Some(Retry)
  }

  predicate IsDeliverable(t: Task)
  {
    if t.taskClass.Some? then t.taskClass.value == "work"
    else
      && t.category != "review" && t.kind != "coordination" && t.mode != "planning"
      && !StartsWith(t.title, "Aggregate results:") && !StartsWith(t.title, "Evaluate mission completion:")
      && !StartsWith(t.title, "Mission:") && !StartsWith(t.title, "Close mission")
  }

  /** An attempt row with a parent is collapsed; one without stands for itself. */
  predicate IsAttempt(t: Task)
  {
    && (if t.taskClass.Some? then t.taskClass.value == "attempt" else DeriveTaskType(t).Some?)
    && t.parent != ""
  }

  /** Statuses in order of preference. Others, such as in_progress and review, have no place of their own. */
  function RankOf(status: string): nat
  {
    if status == "completed" then 0
    else if status == "pending" then 1
    else if status == "assigned" then 2
    else if status == "failed" then 3
    else if status == "cancelled" then 4
    else 5
  }

  predicate HasPr(workers: seq<Worker>)
  {
    exists i :: 0 <= i < |workers| && workers[i].prUrl != ""
  }

  // ---------------------------------------------------------------- the computation

  /** The attempts at a task, in row order. */
  function Children(tasks: seq<Task>, id: string): seq<Task>
  {
    if tasks == [] then []
    else
      var n := |tasks| - 1;
      Children(tasks[..n], id) + if IsAttempt(tasks[n]) && tasks[n].parent == id then [tasks[n]] else []
  }

  function Best(status: string, children: seq<Task>): string
  {
    if children == [] then status
    else
      var n := |children| - 1;
      var best := Best(status, children[..n]);
      if RankOf(children[n].status) < RankOf(best) then children[n].status else best
  }

  function AllWorkers(workers: seq<Worker>, children: seq<Task>): seq<Worker>
  {
    if children == [] then workers
    else AllWorkers(workers, children[..|children| - 1]) + children[|children| - 1].workers
  }

  function Resolve(t: Task, children: seq<Task>): Task
  {
    t.(status := Best(t.status, children), workers := AllWorkers(t.workers, children))
  }

  /** A planning task counts only when it produced a pull request. */
  predicate Countable(t: Task)
  {
    ((t.mode == "planning" && HasPr(t.workers)) || IsDeliverable(t)) && t.status != "cancelled"
  }

  predicate Counts(t: Task, tasks: seq<Task>)
  {
    !IsAttempt(t) && Countable(Resolve(t, Children(tasks, t.id)))
  }

  predicate Done(t: Task, tasks: seq<Task>)
  {
    Counts(t, tasks) && Best(t.status, Children(tasks, t.id)) == "completed"
  }

  function CountsIn(tasks: seq<Task>): Task -> int
  {
    (t: Task) => if Counts(t, tasks) then 1 else 0
  }

  function DoneIn(tasks: seq<Task>): Task -> int
  {
    (t: Task) => if Done(t, tasks) then 1 else 0
  }

  function Total(tasks: seq<Task>): int
  {
    Sum(tasks, CountsIn(tasks))
  }

  function Completed(tasks: seq<Task>): int
  {
    Sum(tasks, DoneIn(tasks))
  }

  /** Half a percent is rounded up. */
  function Percent(completed: int, total: int): int
  {
    if total > 0 then (200 * completed + total) / (2 * total) else 0
  }

  /** The percentage nearest to the part that is completed; one half of a percent goes up. */
  ghost predicate Nearest(progress: int, completed: int, total: int)
  {
    2 * total * progress <= 200 * completed + total < 2 * total * (progress + 1)
  }

  function Bucket(childrenMap: map<string, seq<Task>>, id: string): seq<Task>
  {
    if id in childrenMap then childrenMap[id] else []
  }

  /** The rows that stand for themselves, in row order. */
  function Roots(tasks: seq<Task>): seq<Task>
  {
    if tasks == [] then []
    else
      var n := |tasks| - 1;
      Roots(tasks[..n]) + if IsAttempt(tasks[n]) then [] else [tasks[n]]
  }

  ghost predicate Bucketed(childrenMap: map<string, seq<Task>>, tasks: seq<Task>)
  {
    forall id :: Bucket(childrenMap, id) == Children(tasks, id)
  }

  lemma {:induction false} ChildrenSnoc(tasks: seq<Task>, i: nat, id: string)
    requires i < |tasks|
    ensures Children(tasks[..i + 1], id) ==
            if IsAttempt(tasks[i]) && tasks[i].parent == id then Children(tasks[..i], id) + [tasks[i]]
            else Children(tasks[..i], id)
  {
    assert tasks[..i + 1][..i] == tasks[..i];
  }

  lemma RootsSnoc(tasks: seq<Task>, i: nat)
    requires i < |tasks|
    ensures Roots(tasks[..i + 1]) == if IsAttempt(tasks[i]) then Roots(tasks[..i]) else Roots(tasks[..i]) + [tasks[i]]
  {
    assert tasks[..i + 1][..i] == tasks[..i];
  }

  lemma BucketStep(childrenMap: map<string, seq<Task>>, tasks: seq<Task>, i: nat)
    requires i < |tasks| && Bucketed(childrenMap, tasks[..i])
    ensures var t := tasks[i];
            Bucketed(if IsAttempt(t) then childrenMap[t.parent := Bucket(childrenMap, t.parent) + [t]]
                     else childrenMap, tasks[..i + 1])
  {
    var t := tasks[i];
    var next := if IsAttempt(t) then childrenMap[t.parent := Bucket(childrenMap, t.parent) + [t]] else childrenMap;
    forall id ensures Bucket(next, id) == Children(tasks[..i + 1], id) {
      ChildrenSnoc(tasks, i, id);
    }
  }

  method SplitRows(tasks: seq<Task>) returns (roots: seq<Task>, childrenMap: map<string, seq<Task>>)
    ensures roots == Roots(tasks)
    ensures forall id :: Bucket(childrenMap, id) == Children(tasks, id)
  {
    roots, childrenMap := [], map[];
    for i := 0 to |tasks|
      invariant roots == Roots(tasks[..i])
      invariant Bucketed(childrenMap, tasks[..i])
    {
      var t := tasks[i];
      RootsSnoc(tasks, i);
      BucketStep(childrenMap, tasks, i);
      if IsAttempt(t) {
        childrenMap := childrenMap[t.parent := Bucket(childrenMap, t.parent) + [t]];
      } else {
        roots := roots + [t];
      }
    }
    assert tasks[..|tasks|] == tasks;
  }

  /** The row as progress sees it: with the best status and the workers of all its attempts. */
  method ResolveRow(t: Task, children: seq<Task>) returns (r: Task)
    ensures r == Resolve(t, children)
  {
    var best, workers := t.status, t.workers;
    for i := 0 to |children|
      invariant best == Best(t.status, children[..i])
      invariant workers == AllWorkers(t.workers, children[..i])
    {
      assert children[..i + 1][..i] == children[..i];
      if RankOf(children[i].status) < RankOf(best) {
        best := children[i].status;
      }
      workers := workers + children[i].workers;
    }
    assert children[..|children|] == children;
    return t.(status := best, workers := workers);
  }

  lemma {:induction false} RootsCarryTheSum(tasks: seq<Task>, f: Task -> int)
    requires forall t :: IsAttempt(t) ==> f(t) == 0
    ensures Sum(Roots(tasks), f) == Sum(tasks, f)
  {
    if tasks != [] {
      var n := |tasks| - 1;
      RootsCarryTheSum(tasks[..n], f);
      SumStep(tasks, n, f);
      assert tasks[..n + 1] == tasks;
      SumSnoc(Roots(tasks[..n]), tasks[n], f);
      assert Roots(tasks[..n]) + [] == Roots(tasks[..n]);
    }
  }

  lemma {:induction false} RootsAreNotAttempts(tasks: seq<Task>)
    ensures forall t :: t in Roots(tasks) ==> !IsAttempt(t)
  {
    if tasks != [] { RootsAreNotAttempts(tasks[..|tasks| - 1]); }
  }

  ghost predicate Tallied(roots: seq<Task>, i: nat, tasks: seq<Task>, total: int, completed: int)
  {
    i <= |roots| && total == Sum(roots[..i], CountsIn(tasks)) && completed == Sum(roots[..i], DoneIn(tasks))
  }

  lemma {:induction false} TallyStep(roots: seq<Task>, i: nat, tasks: seq<Task>, total: int, completed: int, row: Task)
    requires i < |roots| && Tallied(roots, i, tasks, total, completed) && !IsAttempt(roots[i])
    requires row == Resolve(roots[i], Children(tasks, roots[i].id))
    ensures Tallied(roots, i + 1, tasks,
                    total + (if Countable(row) then 1 else 0),
                    completed + (if Countable(row) && row.status == "completed" then 1 else 0))
  {
    SumStep(roots, i, CountsIn(tasks));
    SumStep(roots, i, DoneIn(tasks));
  }

  lemma {:induction false} TallyAll(roots: seq<Task>, tasks: seq<Task>, total: int, completed: int)
    requires Tallied(roots, |roots|, tasks, total, completed) && roots == Roots(tasks)
    ensures total == Total(tasks) && completed == Completed(tasks)
  {
    assert roots[..|roots|] == roots;
    RootsCarryTheSum(tasks, CountsIn(tasks));
    RootsCarryTheSum(tasks, DoneIn(tasks));
  }

  method ComputeMissionProgress(tasks: seq<Task>) returns (total: int, completed: int, progress: int)
    ensures total == Total(tasks) && completed == Completed(tasks)
    ensures progress == Percent(completed, total)
    ensures total == 0 ==> progress == 0
    ensures total > 0 ==> Nearest(progress, completed, total)
  {
    var roots, childrenMap := SplitRows(tasks);
    total, completed := 0, 0;
    RootsAreNotAttempts(tasks);
    for i := 0 to |roots|
      invariant Tallied(roots, i, tasks, total, completed)
    {
      assert roots[i] in roots;
      var row := ResolveRow(roots[i], Bucket(childrenMap, roots[i].id));
      TallyStep(roots, i, tasks, total, completed, row);
      if Countable(row) {
        total := total + 1;
        if row.status == "completed" {
          completed := completed + 1;
        }
      }
    }
    TallyAll(roots, tasks, total, completed);
    CompletedIsPartOfTotal(tasks);
    progress := Percent(completed, total);
    PercentIsNearest(completed, total, progress);
  }

  // ---------------------------------------------------------------- what it means, without order

  /** The task or one of its attempts has a status at least as good as rank r. */
  ghost predicate Reaches(t: Task, tasks: seq<Task>, r: nat)
  {
    RankOf(t.status) <= r || exists c :: c in tasks && IsAttempt(c) && c.parent == t.id && RankOf(c.status) <= r
  }

  ghost predicate ShowsPr(t: Task, tasks: seq<Task>)
  {
    HasPr(t.workers) || exists c :: c in tasks && IsAttempt(c) && c.parent == t.id && HasPr(c.workers)
  }

  lemma {:induction false} ChildrenExactly(tasks: seq<Task>, id: string, c: Task)
    ensures c in Children(tasks, id) <==> c in tasks && IsAttempt(c) && c.parent == id
  {
    if tasks != [] {
      var n := |tasks| - 1;
      ChildrenExactly(tasks[..n], id, c);
      assert tasks == tasks[..n] + [tasks[n]];
    }
  }

  lemma {:induction false} BestExactly(status: string, children: seq<Task>, r: nat)
    ensures RankOf(Best(status, children)) <= r <==>
              RankOf(status) <= r || exists c :: c in children && RankOf(c.status) <= r
  {
    if children != [] {
      var n := |children| - 1;
      BestExactly(status, children[..n], r);
      assert children == children[..n] + [children[n]];
    }
  }

  lemma HasPrAppend(a: seq<Worker>, b: seq<Worker>)
    ensures HasPr(a + b) <==> HasPr(a) || HasPr(b)
  {
    var all := a + b;
    if HasPr(a) {
      var i :| 0 <= i < |a| && a[i].prUrl != "";
      assert all[i] == a[i];
    }
    if HasPr(b) {
      var i :| 0 <= i < |b| && b[i].prUrl != "";
      assert all[|a| + i] == b[i];
    }
    if HasPr(all) {
      var i :| 0 <= i < |all| && all[i].prUrl != "";
      if i < |a| { assert a[i] == all[i]; } else { assert b[i - |a|] == all[i]; }
    }
  }

  lemma {:induction false} WorkersExactly(workers: seq<Worker>, children: seq<Task>)
    ensures HasPr(AllWorkers(workers, children)) <==>
              HasPr(workers) || exists c :: c in children && HasPr(c.workers)
  {
    if children != [] {
      var n := |children| - 1;
      WorkersExactly(workers, children[..n]);
      HasPrAppend(AllWorkers(workers, children[..n]), children[n].workers);
      assert children == children[..n] + [children[n]];
    }
  }

  lemma {:induction false} ReachesExactly(t: Task, tasks: seq<Task>, r: nat)
    ensures Reaches(t, tasks, r) <==> RankOf(Best(t.status, Children(tasks, t.id))) <= r
  {
    var children := Children(tasks, t.id);
    BestExactly(t.status, children, r);
    forall c ensures c in children <==> c in tasks && IsAttempt(c) && c.parent == t.id {
      ChildrenExactly(tasks, t.id, c);
    }
  }

  lemma {:induction false} ShowsPrExactly(t: Task, tasks: seq<Task>)
    ensures ShowsPr(t, tasks) <==> HasPr(AllWorkers(t.workers, Children(tasks, t.id)))
  {
    var children := Children(tasks, t.id);
    WorkersExactly(t.workers, children);
    forall c ensures c in children <==> c in tasks && IsAttempt(c) && c.parent == t.id {
      ChildrenExactly(tasks, t.id, c);
    }
  }

  /** Some status at hand is cancelled or better, and none is better than cancelled. */
  ghost predicate GivenUp(t: Task, tasks: seq<Task>)
  {
    Reaches(t, tasks, 4) && !Reaches(t, tasks, 3)
  }

  lemma {:induction false} GivenUpExactly(t: Task, tasks: seq<Task>)
    ensures GivenUp(t, tasks) <==> Best(t.status, Children(tasks, t.id)) == "cancelled"
  {
    ReachesExactly(t, tasks, 4);
    ReachesExactly(t, tasks, 3);
  }

  lemma {:induction false} DoneExactly(t: Task, tasks: seq<Task>)
    ensures Reaches(t, tasks, 0) <==> Best(t.status, Children(tasks, t.id)) == "completed"
  {
    ReachesExactly(t, tasks, 0);
  }

  /**
   What a row adds to the totals depends on which rows there are, not on their order: it counts when it is
   no attempt, is a deliverable or a plan with a pull request somewhere, and is not given up; it is done
   when it or an attempt is completed.
   */
  lemma CountsExactly(t: Task, tasks: seq<Task>)
    ensures Counts(t, tasks) <==>
              !IsAttempt(t) && ((t.mode == "planning" && ShowsPr(t, tasks)) || IsDeliverable(t)) &&
              !GivenUp(t, tasks)
    ensures Done(t, tasks) <==> Counts(t, tasks) && Reaches(t, tasks, 0)
  {
    ShowsPrExactly(t, tasks);
    GivenUpExactly(t, tasks);
    DoneExactly(t, tasks);
  }

  // ---------------------------------------------------------------- the same in terms of statuses

  const PREFERENCE: seq<string> := ["completed", "pending", "assigned", "failed", "cancelled"]

  /** A status ranks by its place in the list of preference; the others come behind all of them. */
  lemma RankIsPlace(status: string)
    ensures RankOf(status) < 5 ==> PREFERENCE[RankOf(status)] == status
    ensures RankOf(status) >= 5 ==> status !in PREFERENCE
    ensures RankOf(status) <= 5
  {
  }

  /** The task or one of its attempts has the status. */
  ghost predicate Shows(t: Task, tasks: seq<Task>, status: string)
  {
    t.status == status || exists c :: c in tasks && IsAttempt(c) && c.parent == t.id && c.status == status
  }

  lemma ReachesIsShown(t: Task, tasks: seq<Task>, r: nat)
    requires r < 5
    ensures Reaches(t, tasks, r) <==> exists k :: 0 <= k <= r && Shows(t, tasks, PREFERENCE[k])
  {
    if Reaches(t, tasks, r) {
      if RankOf(t.status) <= r {
        RankIsPlace(t.status);
        assert Shows(t, tasks, PREFERENCE[RankOf(t.status)]);
      } else {
        var c :| c in tasks && IsAttempt(c) && c.parent == t.id && RankOf(c.status) <= r;
        RankIsPlace(c.status);
        assert Shows(t, tasks, PREFERENCE[RankOf(c.status)]);
      }
    }
    if k :| 0 <= k <= r && Shows(t, tasks, PREFERENCE[k]) {
      assert RankOf(PREFERENCE[k]) == k;
    }
  }

  /**
   A counted row is done exactly when it or an attempt at it is completed, and a row is left out as given up
   exactly when it or an attempt is cancelled and none is completed, pending, assigned or failed.
   */
  lemma DoneByStatus(t: Task, tasks: seq<Task>)
    ensures Done(t, tasks) <==> Counts(t, tasks) && Shows(t, tasks, "completed")
    ensures GivenUp(t, tasks) <==>
              Shows(t, tasks, "cancelled") && !Shows(t, tasks, "completed") && !Shows(t, tasks, "pending") &&
              !Shows(t, tasks, "assigned") && !Shows(t, tasks, "failed")
  {
    CountsExactly(t, tasks);
    ReachesIsShown(t, tasks, 0);
    ReachesIsShown(t, tasks, 3);
    ReachesIsShown(t, tasks, 4);
    assert PREFERENCE[0] == "completed" && PREFERENCE[1] == "pending" && PREFERENCE[2] == "assigned";
    assert PREFERENCE[3] == "failed" && PREFERENCE[4] == "cancelled";
  }

  /** The status of the task and those of its attempts, in row order. */
  function Statuses(status: string, children: seq<Task>): seq<string>
  {
    [status] + seq(|children|, i requires 0 <= i < |children| => children[i].status)
  }

  /** The status a row ends up with is the first of those that no other outranks. */
  lemma {:induction false} BestIsFirst(status: string, children: seq<Task>) returns (p: nat)
    ensures var all := Statuses(status, children);
            && p < |all| && Best(status, children) == all[p]
            && (forall k :: 0 <= k < |all| ==> RankOf(all[p]) <= RankOf(all[k]))
            && (forall k :: 0 <= k < p ==> RankOf(all[p]) < RankOf(all[k]))
  {
    var all := Statuses(status, children);
    if children == [] {
      p := 0;
    } else {
      var n := |children| - 1;
      p := BestIsFirst(status, children[..n]);
      assert all == Statuses(status, children[..n]) + [children[n].status];
      if RankOf(children[n].status) < RankOf(all[p]) { p := n + 1; }
    }
  }

  lemma {:induction false} WorkersOfAll(workers: seq<Worker>, children: seq<Task>, w: Worker)
    ensures w in AllWorkers(workers, children) <==> w in workers || exists c :: c in children && w in c.workers
    ensures workers <= AllWorkers(workers, children)
  {
    if children != [] {
      var n := |children| - 1;
      WorkersOfAll(workers, children[..n], w);
      assert children == children[..n] + [children[n]];
    }
  }

  function StandsForItself(): Task -> bool
  {
    (t: Task) => !IsAttempt(t)
  }

  function AttemptAt(id: string): Task -> bool
  {
    (t: Task) => IsAttempt(t) && t.parent == id
  }

  /** The rows that stand for themselves, and the attempts at each, are those of the list in its order. */
  lemma {:induction false} SplitKeepsOrder(tasks: seq<Task>, id: string)
    ensures Roots(tasks) == Filter(tasks, StandsForItself()) && Children(tasks, id) == Filter(tasks, AttemptAt(id))
  {
    if tasks != [] {
      var n := |tasks| - 1;
      SplitKeepsOrder(tasks[..n], id);
      assert tasks == tasks[..n] + [tasks[n]];
      FilterAppend(tasks[..n], [tasks[n]], StandsForItself());
      FilterAppend(tasks[..n], [tasks[n]], AttemptAt(id));
      FilterOne(tasks[n], StandsForItself());
      FilterOne(tasks[n], AttemptAt(id));
    }
  }

  lemma FilterOne(t: Task, p: Task -> bool)
    ensures Filter([t], p) == if p(t) then [t] else []
  {
    assert [t][1..] == [];
  }

  // ---------------------------------------------------------------- which rows are attempts, which deliverables

  /** A row whose class is recorded goes by it alone, whatever its title, kind, mode and category. */
  lemma ClassDecides(t: Task)
    requires t.taskClass.Some?
    ensures IsAttempt(t) <==> t.taskClass.value == "attempt" && t.parent != ""
    ensures IsDeliverable(t) <==> t.taskClass.value == "work"
  {
  }

  const RETRY_TITLES: seq<string> := ["[reviewer retry", "[reviewer]", "[ci retry", "[retry"]

  ghost predicate Titled(title: string, openings: seq<string>)
  {
    exists k :: 0 <= k < |openings| && StartsWith(title, openings[k])
  }

  /** An older row is an attempt when it has a parent, unless it runs in execution mode under a plain title. */
  lemma OlderAttempt(t: Task)
    requires t.taskClass.None?
    ensures IsAttempt(t) <==> t.parent != "" && (t.mode == "execution" ==> Titled(Lower(t.title), RETRY_TITLES))
  {
    var title := Lower(t.title);
    assert RETRY_TITLES[0] == "[reviewer retry" && RETRY_TITLES[1] == "[reviewer]";
    assert RETRY_TITLES[2] == "[ci retry" && RETRY_TITLES[3] == "[retry";
  }

  const MISSION_TITLES: seq<string> :=
    ["Aggregate results:", "Evaluate mission completion:", "Mission:", "Close mission"]

  /** An older row is no deliverable when it is a review, coordination or planning, or has one of the mission's own titles. */
  lemma OlderDeliverable(t: Task)
    requires t.taskClass.None?
    ensures !IsDeliverable(t) <==>
              t.category == "review" || t.kind == "coordination" || t.mode == "planning" ||
              Titled(t.title, MISSION_TITLES)
  {
    assert MISSION_TITLES[0] == "Aggregate results:" && MISSION_TITLES[1] == "Evaluate mission completion:";
    assert MISSION_TITLES[2] == "Mission:" && MISSION_TITLES[3] == "Close mission";
  }

  // ---------------------------------------------------------------- order, bounds, appended attempts

  lemma SameRowsSameCounts(t: Task, a: seq<Task>, b: seq<Task>)
    requires forall x :: x in a <==> x in b
    ensures Counts(t, a) == Counts(t, b) && Done(t, a) == Done(t, b)
  {
    CountsExactly(t, a);
    CountsExactly(t, b);
  }

  /** Progress does not depend on the order of the rows. */
  lemma OrderDoesNotMatter(a: seq<Task>, b: seq<Task>)
    requires multiset(a) == multiset(b)
    ensures Total(a) == Total(b) && Completed(a) == Completed(b)
    ensures Percent(Completed(a), Total(a)) == Percent(Completed(b), Total(b))
  {
    PermutationMembers(a, b);
    SumPermutation(a, b, CountsIn(a));
    SumPermutation(a, b, DoneIn(a));
    forall t ensures CountsIn(a)(t) == CountsIn(b)(t) && DoneIn(a)(t) == DoneIn(b)(t) {
      SameRowsSameCounts(t, a, b);
    }
    SumCongruent(b, CountsIn(a), CountsIn(b));
    SumCongruent(b, DoneIn(a), DoneIn(b));
  }

  lemma CompletedIsPartOfTotal(tasks: seq<Task>)
    ensures 0 <= Completed(tasks) <= Total(tasks)
  {
    SumNonNegative(tasks, DoneIn(tasks));
    SumMonotone(tasks, DoneIn(tasks), CountsIn(tasks));
  }

  lemma MulMonotone(a: int, b: int, d: int)
    requires a <= b && 0 < d
    ensures a * d <= b * d
  {
  }

  lemma QuotientAtLeast(x: int, d: int, p: int)
    requires 0 < d
    ensures x / d >= p <==> x >= p * d
  {
    var q := x / d;
    assert x == q * d + x % d;
    if q >= p { MulMonotone(p, q, d); } else { MulMonotone(q + 1, p, d); }
  }

  lemma PercentIsNearest(completed: int, total: int, p: int)
    requires 0 <= completed <= total
    ensures total > 0 ==> (p == Percent(completed, total) <==> Nearest(p, completed, total))
    ensures total == 0 ==> Percent(completed, total) == 0
  {
    if total > 0 {
      QuotientAtLeast(200 * completed + total, 2 * total, p);
      QuotientAtLeast(200 * completed + total, 2 * total, p + 1);
    }
  }

  lemma DistanceIsSmall(a: int, b: int, total: int)
    requires total > 0 && 2 * total * a < 2 * total * (b + 1)
    ensures a <= b
  {
    if a >= b + 1 { MulMonotone(b + 1, a, 2 * total); }
  }

  /** Progress is off by half a percent at most, and one more completed task never lowers it. */
  lemma ProgressFollowsCompletion(completed: int, total: int)
    requires 0 <= completed < total
    ensures -total <= 2 * total * Percent(completed, total) - 200 * completed <= total
    ensures Percent(completed, total) <= Percent(completed + 1, total)
    ensures total <= 100 ==> Percent(completed, total) < Percent(completed + 1, total)
  {
    var p, q := Percent(completed, total), Percent(completed + 1, total);
    PercentIsNearest(completed, total, p);
    PercentIsNearest(completed + 1, total, q);
    assert 2 * total * (p + 1) == 2 * total * p + 2 * total;
    assert 2 * total * (q + 1) == 2 * total * q + 2 * total;
    DistanceIsSmall(p, q, total);
    if total <= 100 {
      assert 2 * total * (p + 1) <= 200 * completed + total + 2 * total;
      DistanceIsSmall(p + 1, q, total);
    }
  }

  /**
   Progress lies between 0 and 100. It is 100 exactly when at most one countable task in two hundred is
   missing, so a mission of two hundred tasks shows 100 with one task open.
   */
  lemma ProgressIsHundredExactly(tasks: seq<Task>)
    ensures 0 <= Percent(Completed(tasks), Total(tasks)) <= 100
    ensures Percent(Completed(tasks), Total(tasks)) == 100 <==>
              Total(tasks) > 0 && 200 * (Total(tasks) - Completed(tasks)) <= Total(tasks)
  {
    CompletedIsPartOfTotal(tasks);
    var completed, total := Completed(tasks), Total(tasks);
    if total > 0 {
      QuotientAtLeast(200 * completed + total, 2 * total, 0);
      QuotientAtLeast(200 * completed + total, 2 * total, 100);
      QuotientAtLeast(200 * completed + total, 2 * total, 101);
    }
  }

  /** Dropped: no status at hand has a rank, so a cancelled attempt becomes the best of them. */
  ghost predicate Unranked(t: Task, tasks: seq<Task>)
  {
    !Reaches(t, tasks, 4)
  }

  lemma GivenUpAfter(t: Task, tasks: seq<Task>, a: Task)
    requires IsAttempt(a)
    ensures !GivenUp(t, tasks) && GivenUp(t, tasks + [a]) <==>
              a.status == "cancelled" && a.parent == t.id && Unranked(t, tasks)
    ensures a.status == "cancelled" && GivenUp(t, tasks) ==> GivenUp(t, tasks + [a])
  {
  }

  lemma CountsAfterAttempt(t: Task, tasks: seq<Task>, a: Task)
    requires IsAttempt(a)
    ensures Counts(t, tasks) ==>
              (Counts(t, tasks + [a]) <==> !(a.status == "cancelled" && a.parent == t.id && Unranked(t, tasks)))
    ensures a.status == "cancelled" && !HasPr(a.workers) && !Counts(t, tasks) ==> !Counts(t, tasks + [a])
  {
    CountsExactly(t, tasks);
    CountsExactly(t, tasks + [a]);
    GivenUpAfter(t, tasks, a);
  }

  /** A new attempt never takes a completed task back, and lowers the total only if it is cancelled. */
  lemma AttemptsKeepCompleted(tasks: seq<Task>, a: Task)
    requires IsAttempt(a)
    ensures Completed(tasks + [a]) >= Completed(tasks)
    ensures a.status != "cancelled" ==> Total(tasks + [a]) >= Total(tasks)
  {
    var more := tasks + [a];
    SumSnoc(tasks, a, DoneIn(more));
    SumSnoc(tasks, a, CountsIn(more));
    forall t ensures DoneIn(tasks)(t) <= DoneIn(more)(t) &&
                     (a.status != "cancelled" ==> CountsIn(tasks)(t) <= CountsIn(more)(t)) {
      CountsAfterAttempt(t, tasks, a);
      CountsExactly(t, tasks);
      CountsExactly(t, tasks + [a]);
    }
    SumMonotone(tasks, DoneIn(tasks), DoneIn(more));
    if a.status != "cancelled" { SumMonotone(tasks, CountsIn(tasks), CountsIn(more)); }
  }

  ghost predicate DistinctIds(tasks: seq<Task>)
  {
    forall i, j :: 0 <= i < j < |tasks| ==> tasks[i].id != tasks[j].id
  }

  ghost predicate Drops(t: Task, tasks: seq<Task>, a: Task)
  {
    Counts(t, tasks) && t.id == a.parent && Unranked(t, tasks)
  }

  lemma OnlyParentChanges(t: Task, tasks: seq<Task>, a: Task)
    requires IsAttempt(a) && t.id != a.parent
    ensures Counts(t, tasks + [a]) == Counts(t, tasks)
  {
    CountsExactly(t, tasks);
    CountsExactly(t, tasks + [a]);
  }

  lemma OthersDoNotRise(tasks: seq<Task>, a: Task, t: Task, u: Task)
    requires IsAttempt(a) && a.status == "cancelled" && (HasPr(a.workers) ==> DistinctIds(tasks))
    requires t in tasks && Drops(t, tasks, a) && u in tasks
    ensures Counts(u, tasks + [a]) ==> Counts(u, tasks)
  {
    CountsAfterAttempt(u, tasks, a);
    if u.id != a.parent { OnlyParentChanges(u, tasks, a); }
  }

  /**
   Exactly when a cancelled attempt makes the total shrink: when it is an attempt at a counted task none of
   whose statuses is ranked, such as one in progress or in review. The running task then takes the attempt's
   status and is dropped as if it had never happened.
   */
  lemma CancelledAttemptDropsExactly(tasks: seq<Task>, a: Task)
    requires IsAttempt(a) && a.status == "cancelled" && (HasPr(a.workers) ==> DistinctIds(tasks))
    ensures Total(tasks + [a]) < Total(tasks) <==> exists t :: t in tasks && Drops(t, tasks, a)
  {
    var more := tasks + [a];
    SumSnoc(tasks, a, CountsIn(more));
    if t :| t in tasks && Drops(t, tasks, a) {
      CountsAfterAttempt(t, tasks, a);
      forall u | u in tasks ensures CountsIn(more)(u) <= CountsIn(tasks)(u) {
        OthersDoNotRise(tasks, a, t, u);
      }
      SumStrict(tasks, CountsIn(more), CountsIn(tasks), t);
    } else {
      forall u | u in tasks ensures CountsIn(tasks)(u) <= CountsIn(more)(u) {
        CountsAfterAttempt(u, tasks, a);
      }
      SumMonotone(tasks, CountsIn(tasks), CountsIn(more));
    }
  }

  /** Taken up: a plan without a pull request so far, to which the cancelled attempt brings one. */
  ghost predicate TakesUp(t: Task, tasks: seq<Task>, a: Task)
  {
    && t.id == a.parent && HasPr(a.workers) && !IsAttempt(t) && t.mode == "planning" && !IsDeliverable(t)
    && !ShowsPr(t, tasks) && Reaches(t, tasks, 3)
  }

  ghost function DropsIn(tasks: seq<Task>, a: Task): Task -> int
  {
    (t: Task) => if Drops(t, tasks, a) then 1 else 0
  }

  ghost function TakesUpIn(tasks: seq<Task>, a: Task): Task -> int
  {
    (t: Task) => if TakesUp(t, tasks, a) then 1 else 0
  }

  lemma ShowsPrAfter(t: Task, tasks: seq<Task>, a: Task)
    requires IsAttempt(a)
    ensures ShowsPr(t, tasks + [a]) <==> ShowsPr(t, tasks) || (a.parent == t.id && HasPr(a.workers))
  {
    assert a in tasks + [a];
  }

  lemma CancelledKeepsReach(t: Task, tasks: seq<Task>, a: Task)
    requires IsAttempt(a) && a.status == "cancelled"
    ensures Reaches(t, tasks + [a], 3) <==> Reaches(t, tasks, 3)
    ensures Reaches(t, tasks + [a], 4) <==> Reaches(t, tasks, 4) || a.parent == t.id
  {
    assert a in tasks + [a];
  }

  lemma CancelledChangesRow(t: Task, tasks: seq<Task>, a: Task)
    requires IsAttempt(a) && a.status == "cancelled"
    ensures CountsIn(tasks + [a])(t) == CountsIn(tasks)(t) - DropsIn(tasks, a)(t) + TakesUpIn(tasks, a)(t)
  {
    CountsExactly(t, tasks);
    CountsExactly(t, tasks + [a]);
    ShowsPrAfter(t, tasks, a);
    CancelledKeepsReach(t, tasks, a);
  }

  lemma {:induction false} SumBalance(s: seq<Task>, f: Task -> int, g: Task -> int, h: Task -> int, k: Task -> int)
    requires forall t :: t in s ==> f(t) == g(t) - h(t) + k(t)
    ensures Sum(s, f) == Sum(s, g) - Sum(s, h) + Sum(s, k)
  {
    if s != [] {
      assert s[0] in s;
      SumBalance(s[1..], f, g, h, k);
    }
  }

  /**
   What a cancelled attempt does to the total, whatever it brings: less the counted tasks it drops, more the
   plans it takes up.
   */
  lemma {:induction false} CancelledAttemptChange(tasks: seq<Task>, a: Task)
    requires IsAttempt(a) && a.status == "cancelled"
    ensures Total(tasks + [a]) == Total(tasks) - Sum(tasks, DropsIn(tasks, a)) + Sum(tasks, TakesUpIn(tasks, a))
  {
    var more := tasks + [a];
    SumSnoc(tasks, a, CountsIn(more));
    forall t ensures CountsIn(more)(t) == CountsIn(tasks)(t) - DropsIn(tasks, a)(t) + TakesUpIn(tasks, a)(t) {
      CancelledChangesRow(t, tasks, a);
    }
    SumBalance(tasks, CountsIn(more), CountsIn(tasks), DropsIn(tasks, a), TakesUpIn(tasks, a));
  }

  // ---------------------------------------------------------------- two missions

  /** The n-th work task of a mission. */
  function Row(n: nat, status: string): Task
  {
    Task(seq(n + 1, _ => 't'), status, Some("work"), "", "", "", "", "", [])
  }

  lemma RowCounts(n: nat, status: string, tasks: seq<Task>)
    requires forall c :: c in tasks ==> c.parent == ""
    requires status == "pending" || status == "completed"
    ensures Counts(Row(n, status), tasks)
    ensures Done(Row(n, status), tasks) <==> status == "completed"
  {
    CountsExactly(Row(n, status), tasks);
  }

  /** One open task and n that are completed. */
  function OneOpen(n: nat): seq<Task>
  {
    [Row(0, "pending")] + seq(n, i requires 0 <= i < n => Row(i + 1, "completed"))
  }

  lemma OneOpenTotal(n: nat)
    ensures Total(OneOpen(n)) == n + 1
  {
    var tasks := OneOpen(n);
    forall t | t in tasks ensures CountsIn(tasks)(t) == 1 {
      RowCounts(|t.id| - 1, t.status, tasks);
    }
    SumCongruent(tasks, CountsIn(tasks), One());
    SumOne(tasks);
  }

  lemma OneOpenCompleted(n: nat)
    ensures Completed(OneOpen(n)) == n
  {
    var tasks := OneOpen(n);
    var done := tasks[1..];
    forall t | t in done ensures DoneIn(tasks)(t) == 1 {
      RowCounts(|t.id| - 1, "completed", tasks);
    }
    RowCounts(0, "pending", tasks);
    SumCongruent(done, DoneIn(tasks), One());
    SumOne(done);
  }

  /** A mission of two hundred tasks with one of them open shows 100 percent. */
  lemma HundredWithOneOpen()
    ensures var tasks := OneOpen(199);
            Total(tasks) == 200 && Completed(tasks) == 199 && Percent(Completed(tasks), Total(tasks)) == 100
  {
    OneOpenTotal(199);
    OneOpenCompleted(199);
    ProgressIsHundredExactly(OneOpen(199));
  }

  lemma RunningRowCounts(t: Task)
    requires t == Row(0, "in_progress")
    ensures Counts(t, [t]) && Unranked(t, [t])
  {
    CountsExactly(t, [t]);
  }

  lemma TotalOfOne(t: Task)
    requires Counts(t, [t])
    ensures Total([t]) == 1
  {
    assert Sum([t], CountsIn([t])) == 1 + Sum([], CountsIn([t]));
  }

  /** A task at work and a cancelled retry of it: the mission is left with nothing to do. */
  lemma CancelledRetryDropsRunningTask(t: Task, a: Task)
    requires t == Row(0, "in_progress")
    requires a == Row(1, "cancelled").(taskClass := Some("attempt"), parent := t.id)
    ensures Total([t]) == 1 && Total([t] + [a]) == 0
  {
    RunningRowCounts(t);
    TotalOfOne(t);
    assert Drops(t, [t], a);
    CancelledAttemptDropsExactly([t], a);
    CompletedIsPartOfTotal([t] + [a]);
  }
}
