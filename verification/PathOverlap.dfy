/**
 Serialization of a batch of tasks by the files they touch. Overlap of two paths is compared as text
 by the code and as lists of path components by the specification; the added dependency edges are
 then run by a scheduler, to show that overlapping tasks never run together and when the batch drains.
 */
module PathOverlap {
  import opened Options
  import opened Seqs
  import opened Strings

  // ---------------------------------------------------------------- paths

  function Normalize(p: string): string
  {
    if p != "" && p[|p| - 1] == '/' then Normalize(p[..|p| - 1]) else p
  }

  ghost predicate OnlySlashes(p: string)
  {
    forall k :: 0 <= k < |p| ==> p[k] == '/'
  }

  /** Exactly the slashes at the end of a path are taken off. */
  lemma {:induction false} NormalizeExactly(p: string, q: string)
    ensures Normalize(p) == q <==> q <= p && OnlySlashes(p[|q|..]) && (q != "" ==> q[|q| - 1] != '/')
  {
    if p != "" && p[|p| - 1] == '/' {
      NormalizeExactly(p[..|p| - 1], q);
      if |q| < |p| {
        assert p[|q|..] == p[..|p| - 1][|q|..] + "/";
      }
    } else if q <= p && |q| < |p| {
      assert p[|q|..][|p| - 1 - |q|] == p[|p| - 1];
    }
  }

  /** The components of a path: the parts between slashes. */
  ghost function Components(p: string): (cs: seq<string>)
    ensures cs != []
  {
    if p == "" then [""] else Extended(p[0], Components(p[1..]))
  }

  /** The components after putting one more character before a path. */
  ghost function Extended(c: char, cs: seq<string>): (r: seq<string>)
    requires cs != []
    ensures r != []
  {
    if c == '/' then [""] + cs else [[c] + cs[0]] + cs[1..]
  }

  lemma {:induction false} ComponentsRoundTrip(p: string)
    ensures Join(Components(p), "/") == p
  {
    if p != "" {
      ComponentsRoundTrip(p[1..]);
      if p[0] == '/' {
        assert Components(p)[1..] == Components(p[1..]);
        assert "" + "/" + p[1..] == p;
      } else {
        JoinCons(p[0], Components(p[1..]), "/");
      }
    }
  }

  lemma {:induction false} ComponentsAppend(p: string, q: string)
    ensures Components(p + "/" + q) == Components(p) + Components(q)
  {
    if p == "" {
      ComponentsCons('/', q);
      assert p + "/" + q == "/" + q;
    } else {
      ComponentsAppend(p[1..], q);
      ComponentsCons(p[0], p[1..] + "/" + q);
      assert p + "/" + q == [p[0]] + (p[1..] + "/" + q);
      ExtendedAppend(p[0], Components(p[1..]), Components(q));
    }
  }

  lemma ComponentsCons(c: char, t: string)
    ensures Components([c] + t) == Extended(c, Components(t))
  {
    assert ([c] + t)[1..] == t;
  }

  lemma ExtendedAppend(c: char, a: seq<string>, b: seq<string>)
    requires a != []
    ensures Extended(c, a + b) == Extended(c, a) + b
  {
    assert (a + b)[1..] == a[1..] + b;
  }

  lemma {:induction false} JoinAppend(a: seq<string>, b: seq<string>)
    requires a != [] && b != []
    ensures Join(a + b, "/") == Join(a, "/") + "/" + Join(b, "/")
  {
    if |a| == 1 {
      assert (a + b)[1..] == b;
    } else {
      JoinAppend(a[1..], b);
      assert (a + b)[1..] == a[1..] + b;
      var x, y := Join(a[1..], "/"), Join(b, "/");
      assert a[0] + "/" + (x + "/" + y) == a[0] + "/" + x + "/" + y;
    }
  }

  /** Continuing p with a slash is the same as extending the list of its components. */
  lemma {:induction false} PrefixIsComponents(p: string, q: string)
    ensures StartsWith(q, p + "/") <==> Components(p) < Components(q)
    ensures p == q <==> Components(p) == Components(q)
  {
    ComponentsRoundTrip(p);
    ComponentsRoundTrip(q);
    if StartsWith(q, p + "/") {
      var r := q[|p| + 1..];
      assert q == p + "/" + r;
      ComponentsAppend(p, r);
    }
    if Components(p) < Components(q) {
      var rest := Components(q)[|Components(p)|..];
      assert Components(q) == Components(p) + rest;
      JoinAppend(Components(p), rest);
    }
  }

  /** One path is the other or lies below it: one component list is a prefix of the other. */
  ghost predicate Overlap(p: string, q: string)
  {
    var cp, cq := Components(Normalize(p)), Components(Normalize(q));
    cp <= cq || cq <= cp
  }

  ghost predicate ManifestsOverlap(a: seq<string>, b: seq<string>)
  {
    exists i, j :: 0 <= i < |a| && 0 <= j < |b| && Overlap(a[i], b[j])
  }

  lemma {:induction false} OverlapByText(p: string, q: string)
    ensures Overlap(p, q) <==>
            var np, nq := Normalize(p), Normalize(q);
            np == nq || StartsWith(nq, np + "/") || StartsWith(np, nq + "/")
  {
    PrefixIsComponents(Normalize(p), Normalize(q));
    PrefixIsComponents(Normalize(q), Normalize(p));
  }

  method PathsOverlap(a: seq<string>, b: seq<string>) returns (overlap: bool)
    ensures overlap <==> ManifestsOverlap(a, b)
  {
    if |a| == 0 || |b| == 0 {
      return false;
    }
    var na := seq(|a|, i requires 0 <= i < |a| => Normalize(a[i]));
    var nb := seq(|b|, j requires 0 <= j < |b| => Normalize(b[j]));
    var setB := set j | 0 <= j < |nb| :: nb[j];
    for i := 0 to |na|
      invariant forall k, j :: 0 <= k < i && 0 <= j < |b| ==> !Overlap(a[k], b[j])
    {
      var pa := na[i];
      if pa in setB {
        var j :| 0 <= j < |nb| && nb[j] == pa;
        OverlapByText(a[i], b[j]);
        return true;
      }
      for j := 0 to |nb|
        invariant forall k :: 0 <= k < j ==> !Overlap(a[i], b[k])
      {
        var pb := nb[j];
        OverlapByText(a[i], b[j]);
        if StartsWith(pb, pa + "/") || StartsWith(pa, pb + "/") {
          return true;
        }
        assert pb in setB;
      }
    }
    return false;
  }

  lemma OverlapSymmetric(a: seq<string>, b: seq<string>)
    ensures ManifestsOverlap(a, b) <==> ManifestsOverlap(b, a)
  {
    if i, j :| 0 <= i < |a| && 0 <= j < |b| && Overlap(a[i], b[j]) {
      assert Overlap(b[j], a[i]);
    }
    if i, j :| 0 <= i < |b| && 0 <= j < |a| && Overlap(b[i], a[j]) {
      assert Overlap(a[j], b[i]);
    }
  }

  // ---------------------------------------------------------------- added edges

  datatype ManifestTask = ManifestTask(id: string, pathManifest: Option<seq<string>>, dependsOn: Option<seq<string>>)

  datatype OverlapEdge = OverlapEdge(taskId: string, addDependsOn: seq<string>)

  function Manifest(t: ManifestTask): seq<string>
  {
    if t.pathManifest.Some? then t.pathManifest.value else []
  }

  function Declared(t: ManifestTask): seq<string>
  {
    if t.dependsOn.Some? then t.dependsOn.value else []
  }

  /** The ids added to task i after the earlier tasks up to j have been compared with it. */
  ghost function Added(tasks: seq<ManifestTask>, i: nat, j: nat): seq<string>
    requires j <= i < |tasks|
  {
    if j == 0 then []
    else
      var before := Added(tasks, i, j - 1);
      var a := tasks[j - 1];
      if a.id !in Declared(tasks[i]) && a.id !in before && ManifestsOverlap(Manifest(a), Manifest(tasks[i]))
      then before + [a.id] else before
  }

  ghost function AddedFor(tasks: seq<ManifestTask>, i: nat): seq<string>
    requires i < |tasks|
  {
    Added(tasks, i, i)
  }

  /** The edges of the first n tasks; a task to which nothing is added has no entry. */
  ghost function EdgesUpTo(tasks: seq<ManifestTask>, n: nat): seq<OverlapEdge>
    requires n <= |tasks|
  {
    if n == 0 then []
    else
      var before := EdgesUpTo(tasks, n - 1);
      var added := AddedFor(tasks, n - 1);
      if added == [] then before else before + [OverlapEdge(tasks[n - 1].id, added)]
  }

  lemma {:induction false} NoManifestNoEdge(tasks: seq<ManifestTask>, i: nat, j: nat)
    requires j <= i < |tasks| && Manifest(tasks[i]) == []
    ensures Added(tasks, i, j) == []
  {
    if j > 0 { NoManifestNoEdge(tasks, i, j - 1); }
  }

  /** After the earlier tasks up to j: what is added to task i, and the ids it then depends on. */
  ghost predicate Compared(tasks: seq<ManifestTask>, i: nat, j: nat, toAdd: seq<string>, existing: set<string>)
    requires j <= i < |tasks|
  {
    && toAdd == Added(tasks, i, j)
    && forall id :: id in existing <==> id in Declared(tasks[i]) || id in toAdd
  }

  lemma CompareNext(tasks: seq<ManifestTask>, i: nat, j: nat, toAdd: seq<string>, existing: set<string>)
    requires j < i < |tasks| && Compared(tasks, i, j, toAdd, existing)
    ensures var a := tasks[j];
            if a.id !in existing && ManifestsOverlap(Manifest(a), Manifest(tasks[i]))
            then Compared(tasks, i, j + 1, toAdd + [a.id], existing + {a.id})
            else Compared(tasks, i, j + 1, toAdd, existing)
  {
  }

  // What the edges say, for any batch and for one with unique ids.

  /** The edge of task i: what it lists are the undeclared ids of earlier tasks that overlap with it, once and in order. */
  ghost predicate IsEdgeOf(e: OverlapEdge, tasks: seq<ManifestTask>, i: nat)
    requires i < |tasks|
  {
    && e.taskId == tasks[i].id && e.addDependsOn != [] && Distinct(e.addDependsOn)
    && (forall p, q :: 0 <= p < q < |e.addDependsOn| ==> TaskBefore(tasks, i, e.addDependsOn[p], e.addDependsOn[q]))
    && forall id :: id in e.addDependsOn <==> MustWait(tasks, i, id)
  }

  /** Among the first n tasks one with the first id stands before one with the second. */
  ghost predicate TaskBefore(tasks: seq<ManifestTask>, n: nat, a: string, b: string)
    requires n <= |tasks|
  {
    exists k, m :: 0 <= k < m < n && tasks[k].id == a && tasks[m].id == b
  }

  ghost predicate MustWait(tasks: seq<ManifestTask>, i: nat, id: string)
    requires i < |tasks|
  {
    id !in Declared(tasks[i]) && OverlapsBefore(tasks, i, i, id)
  }

  /** Task i must wait for some id that it does not declare. */
  ghost predicate NeedsEdge(tasks: seq<ManifestTask>, i: nat)
    requires i < |tasks|
  {
    exists id :: MustWait(tasks, i, id)
  }

  /** The edges are those of the first n tasks that need one, in the order of the tasks: at holds their positions. */
  ghost predicate AreEdges(edges: seq<OverlapEdge>, at: seq<nat>, tasks: seq<ManifestTask>, n: nat)
    requires n <= |tasks|
  {
    && |edges| == |at|
    && (forall p :: 0 <= p < |at| ==> at[p] < n && IsEdgeOf(edges[p], tasks, at[p]))
    && (forall p, q :: 0 <= p < q < |at| ==> at[p] < at[q])
    && (forall i: nat :: i < n && NeedsEdge(tasks, i) ==> i in at)
  }

  lemma AddedExactly(tasks: seq<ManifestTask>, i: nat, id: string)
    requires i < |tasks|
    ensures id in AddedFor(tasks, i) <==> MustWait(tasks, i, id)
  {
    AddedIsOverlap(tasks, i, i);
    if MustWait(tasks, i, id) {
      var k :| 0 <= k < i && tasks[k].id == id && ManifestsOverlap(Manifest(tasks[k]), Manifest(tasks[i]));
      OverlapIsOrdered(tasks, i, i, k);
    }
  }

  lemma {:induction false} AddedInOrder(tasks: seq<ManifestTask>, i: nat, j: nat, p: nat, q: nat)
    requires j <= i < |tasks| && p < q < |Added(tasks, i, j)|
    ensures TaskBefore(tasks, j, Added(tasks, i, j)[p], Added(tasks, i, j)[q])
  {
    var before := Added(tasks, i, j - 1);
    if q < |before| {
      AddedInOrder(tasks, i, j - 1, p, q);
    } else {
      assert tasks[j - 1].id == Added(tasks, i, j)[q];
      AddedIsOverlap(tasks, i, j - 1);
      assert OverlapsBefore(tasks, i, j - 1, before[p]);
      var k :| 0 <= k < j - 1 && tasks[k].id == before[p] && ManifestsOverlap(Manifest(tasks[k]), Manifest(tasks[i]));
    }
  }

  lemma AddedMeans(tasks: seq<ManifestTask>, i: nat)
    requires i < |tasks|
    ensures AddedFor(tasks, i) != [] <==> NeedsEdge(tasks, i)
    ensures AddedFor(tasks, i) != [] ==> IsEdgeOf(OverlapEdge(tasks[i].id, AddedFor(tasks, i)), tasks, i)
  {
    var added := AddedFor(tasks, i);
    AddedIsOverlap(tasks, i, i);
    forall id ensures id in added <==> MustWait(tasks, i, id) {
      AddedExactly(tasks, i, id);
    }
    if added != [] { assert MustWait(tasks, i, added[0]); }
    forall p, q | 0 <= p < q < |added| ensures TaskBefore(tasks, i, added[p], added[q]) {
      AddedInOrder(tasks, i, i, p, q);
    }
  }

  lemma EdgesGrow(edges: seq<OverlapEdge>, at: seq<nat>, tasks: seq<ManifestTask>, n: nat, e: OverlapEdge)
    requires n < |tasks| && AreEdges(edges, at, tasks, n) && IsEdgeOf(e, tasks, n)
    ensures AreEdges(edges + [e], at + [n], tasks, n + 1)
  {
    var more := at + [n];
    assert more[|at|] == n;
    forall i: nat | i < n + 1 && NeedsEdge(tasks, i) ensures i in more {
      if i < n { assert i in at; }
    }
  }

  lemma EdgesStay(edges: seq<OverlapEdge>, at: seq<nat>, tasks: seq<ManifestTask>, n: nat)
    requires n < |tasks| && AreEdges(edges, at, tasks, n) && !NeedsEdge(tasks, n)
    ensures AreEdges(edges, at, tasks, n + 1)
  {
  }

  ghost predicate EdgesKnown(tasks: seq<ManifestTask>, n: nat, at: seq<nat>)
    requires n <= |tasks|
  {
    AreEdges(EdgesUpTo(tasks, n), at, tasks, n)
  }

  lemma EdgesStep(tasks: seq<ManifestTask>, n: nat, at: seq<nat>) returns (at': seq<nat>)
    requires n < |tasks| && EdgesKnown(tasks, n, at)
    ensures EdgesKnown(tasks, n + 1, at')
  {
    var edges, added := EdgesUpTo(tasks, n), AddedFor(tasks, n);
    AddedMeans(tasks, n);
    if added != [] {
      EdgesGrow(edges, at, tasks, n, OverlapEdge(tasks[n].id, added));
      at' := at + [n];
    } else {
      EdgesStay(edges, at, tasks, n);
      at' := at;
    }
  }

  lemma {:induction false} EdgesAre(tasks: seq<ManifestTask>, n: nat) returns (at: seq<nat>)
    requires n <= |tasks|
    ensures EdgesKnown(tasks, n, at)
  {
    at := [];
    if n > 0 {
      at := EdgesAre(tasks, n - 1);
      at := EdgesStep(tasks, n - 1, at);
    }
  }

  ghost predicate UniqueTaskIds(tasks: seq<ManifestTask>)
  {
    forall i, j :: 0 <= i < j < |tasks| ==> tasks[i].id != tasks[j].id
  }

  /** Some edge of the task with the first id lists the second. */
  ghost predicate Orders(edges: seq<OverlapEdge>, taskId: string, id: string)
  {
    exists p :: 0 <= p < |edges| && edges[p].taskId == taskId && id in edges[p].addDependsOn
  }

  ghost predicate OneEdgePerTask(edges: seq<OverlapEdge>)
  {
    && (forall p :: 0 <= p < |edges| ==> edges[p].addDependsOn != [])
    && (forall p, q :: 0 <= p < q < |edges| ==> edges[p].taskId != edges[q].taskId)
  }

  lemma OrdersOne(edges: seq<OverlapEdge>, at: seq<nat>, tasks: seq<ManifestTask>, i: nat, id: string)
    requires AreEdges(edges, at, tasks, |tasks|) && i < |tasks|
    ensures MustWait(tasks, i, id) ==> Orders(edges, tasks[i].id, id)
    ensures UniqueTaskIds(tasks) && Orders(edges, tasks[i].id, id) ==> MustWait(tasks, i, id)
  {
    if MustWait(tasks, i, id) {
      assert NeedsEdge(tasks, i);
      var p :| 0 <= p < |at| && at[p] == i;
      assert IsEdgeOf(edges[p], tasks, at[p]);
    }
    if UniqueTaskIds(tasks) && Orders(edges, tasks[i].id, id) {
      var p :| 0 <= p < |edges| && edges[p].taskId == tasks[i].id && id in edges[p].addDependsOn;
      assert IsEdgeOf(edges[p], tasks, at[p]);
      assert at[p] == i;
    }
  }

  /** In a batch with unique ids the edges list, for each task, the undeclared earlier tasks that overlap with it. */
  lemma EdgesExactly(tasks: seq<ManifestTask>, i: nat, id: string)
    requires UniqueTaskIds(tasks) && i < |tasks|
    ensures Orders(EdgesUpTo(tasks, |tasks|), tasks[i].id, id) <==>
              id !in Declared(tasks[i]) &&
              exists k :: 0 <= k < i && tasks[k].id == id && ManifestsOverlap(Manifest(tasks[k]), Manifest(tasks[i]))
    ensures OneEdgePerTask(EdgesUpTo(tasks, |tasks|))
  {
    var edges := EdgesUpTo(tasks, |tasks|);
    var at := EdgesAre(tasks, |tasks|);
    OrdersOne(edges, at, tasks, i, id);
    forall p, q | 0 <= p < q < |edges| ensures edges[p].taskId != edges[q].taskId {
      assert IsEdgeOf(edges[p], tasks, at[p]) && IsEdgeOf(edges[q], tasks, at[q]);
    }
    forall p | 0 <= p < |edges| ensures edges[p].addDependsOn != [] {
      assert IsEdgeOf(edges[p], tasks, at[p]);
    }
  }

  method SerializeBatchByManifest(tasks: seq<ManifestTask>) returns (edges: seq<OverlapEdge>)
    ensures edges == EdgesUpTo(tasks, |tasks|)
    ensures exists at :: AreEdges(edges, at, tasks, |tasks|)
  {
    ghost var at := EdgesAre(tasks, |tasks|);
    edges := [];
    if |tasks| == 0 { return; }
    assert Added(tasks, 0, 0) == [];
    for i := 1 to |tasks|
      invariant edges == EdgesUpTo(tasks, i)
    {
      var taskB := tasks[i];
      if |Manifest(taskB)| == 0 {
        NoManifestNoEdge(tasks, i, i);
        continue;
      }
      var existing := set id | id in Declared(taskB);
      var toAdd: seq<string> := [];
      for j := 0 to i
        invariant Compared(tasks, i, j, toAdd, existing)
      {
        CompareNext(tasks, i, j, toAdd, existing);
        var taskA := tasks[j];
        if |Manifest(taskA)| == 0 || taskA.id in existing {
          continue;
        }
        var overlap := PathsOverlap(Manifest(taskA), Manifest(taskB));
        if overlap {
          toAdd := toAdd + [taskA.id];
          existing := existing + {taskA.id};
        }
      }
      if |toAdd| > 0 {
        edges := edges + [OverlapEdge(taskB.id, toAdd)];
      }
    }
  }

  /** Every overlap with an earlier task is declared or added. */
  lemma {:induction false} OverlapIsOrdered(tasks: seq<ManifestTask>, i: nat, j: nat, k: nat)
    requires k < j <= i < |tasks| && ManifestsOverlap(Manifest(tasks[k]), Manifest(tasks[i]))
    ensures tasks[k].id in Declared(tasks[i]) || tasks[k].id in Added(tasks, i, j)
  {
    if k < j - 1 { OverlapIsOrdered(tasks, i, j - 1, k); }
  }

  /** Nothing is added without an overlap, nothing that is declared, and nothing twice. */
  lemma {:induction false} AddedIsOverlap(tasks: seq<ManifestTask>, i: nat, j: nat)
    requires j <= i < |tasks|
    ensures forall id :: id in Added(tasks, i, j) ==> id !in Declared(tasks[i]) && OverlapsBefore(tasks, i, j, id)
    ensures Distinct(Added(tasks, i, j))
  {
    if j > 0 {
      AddedIsOverlap(tasks, i, j - 1);
      forall id | id in Added(tasks, i, j) ensures id !in Declared(tasks[i]) && OverlapsBefore(tasks, i, j, id) {
        if id in Added(tasks, i, j - 1) {
          OverlapsBeforeGrows(tasks, i, j - 1, id);
        } else {
          assert tasks[j - 1].id == id;
        }
      }
    }
  }

  lemma OverlapsBeforeGrows(tasks: seq<ManifestTask>, i: nat, j: nat, id: string)
    requires j < i < |tasks| && OverlapsBefore(tasks, i, j, id)
    ensures OverlapsBefore(tasks, i, j + 1, id)
  {
    var k :| 0 <= k < j && tasks[k].id == id && ManifestsOverlap(Manifest(tasks[k]), Manifest(tasks[i]));
  }

  ghost predicate OverlapsBefore(tasks: seq<ManifestTask>, i: nat, j: nat, id: string)
    requires j <= i < |tasks|
  {
    exists k :: 0 <= k < j && tasks[k].id == id && ManifestsOverlap(Manifest(tasks[k]), Manifest(tasks[i]))
  }

  // ---------------------------------------------------------------- the scheduler

  datatype Status = Pending | Running | Done

  type State = seq<Status>

  /** The batch as the scheduler sees it, with the ids of outside tasks that are finished. */
  datatype Batch = Batch(tasks: seq<ManifestTask>, outside: set<string>)
  {
    /** What the task declares, or what an edge of the serialized batch adds for its id. */
    ghost predicate DependsOn(i: nat, id: string)
      requires i < |tasks|
    {
      id in Declared(tasks[i]) || Orders(EdgesUpTo(tasks, |tasks|), tasks[i].id, id)
    }

    ghost predicate Finished(st: State, id: string)
      requires |st| == |tasks|
    {
      id in outside || exists j :: 0 <= j < |tasks| && tasks[j].id == id && st[j] == Done
    }

    ghost predicate Ready(st: State, i: nat)
      requires |st| == |tasks| && i < |tasks|
    {
      forall id :: DependsOn(i, id) ==> Finished(st, id)
    }

    ghost predicate Starts(st: State, st': State, i: nat)
    {
      |st| == |tasks| && i < |tasks| && st[i] == Pending && Ready(st, i) && st' == st[i := Running]
    }

    ghost predicate Finishes(st: State, st': State, i: nat)
    {
      |st| == |tasks| && i < |tasks| && st[i] == Running && st' == st[i := Done]
    }

    ghost predicate Next(st: State, st': State)
    {
      exists i :: 0 <= i < |tasks| && (Starts(st, st', i) || Finishes(st, st', i))
    }

    ghost predicate Init(st: State)
    {
      |st| == |tasks| && forall i :: 0 <= i < |st| ==> st[i] == Pending
    }

    /** A run: a sequence of states from the initial one, each a step after the last. */
    ghost predicate IsRun(run: seq<State>)
    {
      run != [] && Init(run[0]) && forall k :: 0 <= k < |run| - 1 ==> Next(run[k], run[k + 1])
    }

    ghost predicate AllDone(st: State)
    {
      forall i :: 0 <= i < |st| ==> st[i] == Done
    }

    /** Database ids: no two tasks of the batch share one, and none names an outside task. */
    ghost predicate UniqueIds()
    {
      && (forall i, j :: 0 <= i < j < |tasks| ==> tasks[i].id != tasks[j].id)
      && (forall i :: 0 <= i < |tasks| ==> tasks[i].id !in outside)
    }

    ghost predicate Conflict(i: nat, j: nat)
      requires i < |tasks| && j < |tasks|
    {
      ManifestsOverlap(Manifest(tasks[i]), Manifest(tasks[j]))
    }

    // ------------------------------------------------------------ safety

    /** A task that has been started had all its dependencies done. */
    ghost predicate Started(st: State)
    {
      |st| == |tasks| && forall i :: 0 <= i < |st| && st[i] != Pending ==> Ready(st, i)
    }

    lemma FinishedGrows(st: State, st': State, id: string)
      requires Next(st, st') && |st| == |tasks| && Finished(st, id)
      ensures |st'| == |tasks| && Finished(st', id)
    {
      if id !in outside {
        var j :| 0 <= j < |tasks| && tasks[j].id == id && st[j] == Done;
        assert st'[j] == Done;
      }
    }

    lemma StartedStep(st: State, st': State)
      requires Started(st) && Next(st, st')
      ensures Started(st')
    {
      forall i | 0 <= i < |st'| && st'[i] != Pending ensures Ready(st', i) {
        assert Ready(st, i);
        forall id | DependsOn(i, id) ensures Finished(st', id) {
          FinishedGrows(st, st', id);
        }
      }
    }

    lemma {:induction false} StartedRun(run: seq<State>, k: nat)
      requires IsRun(run) && k < |run|
      ensures Started(run[k])
    {
      if k > 0 {
        StartedRun(run, k - 1);
        StartedStep(run[k - 1], run[k]);
      }
    }

    /** The later of two conflicting tasks depends on the earlier one. */
    lemma ConflictIsOrdered(j: nat, i: nat)
      requires j < i < |tasks| && Conflict(j, i)
      ensures DependsOn(i, tasks[j].id)
    {
      assert OverlapsBefore(tasks, i, i, tasks[j].id);
      if tasks[j].id !in Declared(tasks[i]) {
        var at := EdgesAre(tasks, |tasks|);
        OrdersOne(EdgesUpTo(tasks, |tasks|), at, tasks, i, tasks[j].id);
      }
    }

    /** In no state of any run are two tasks with overlapping manifests running together. */
    lemma OverlappingTasksNeverRunTogether(run: seq<State>, k: nat, i: nat, j: nat)
      requires UniqueIds() && IsRun(run) && k < |run|
      requires i < |tasks| && j < |tasks| && i != j && Conflict(i, j)
      ensures |run[k]| == |tasks| && !(run[k][i] == Running && run[k][j] == Running)
      ensures j < i && run[k][i] != Pending ==> run[k][j] == Done
    {
      StartedRun(run, k);
      OverlapSymmetric(Manifest(tasks[i]), Manifest(tasks[j]));
      if j < i {
        ConflictIsOrdered(j, i);
        DoneById(run[k], i, j);
      } else {
        ConflictIsOrdered(i, j);
        DoneById(run[k], j, i);
      }
    }

    lemma DoneById(st: State, i: nat, j: nat)
      requires UniqueIds() && Started(st) && i < |tasks| && j < |tasks| && DependsOn(i, tasks[j].id)
      ensures st[i] != Pending ==> st[j] == Done
    {
      if st[i] != Pending {
        assert Ready(st, i) && Finished(st, tasks[j].id);
        var m :| 0 <= m < |tasks| && tasks[m].id == tasks[j].id && st[m] == Done;
        assert m == j;
      }
    }

    // ------------------------------------------------------------ progress

    /** The steps still to come: two for a pending task, one for a running task. */
    ghost function Remaining(st: State): nat
    {
      if st == [] then 0
      else Remaining(st[1..]) + match st[0] case Pending => 2 case Running => 1 case Done => 0
    }

    lemma {:induction false} RemainingUpdate(st: State, i: nat, s: Status)
      requires i < |st|
      ensures Remaining(st[i := s]) - Remaining([s]) == Remaining(st) - Remaining([st[i]])
    {
      assert [s][1..] == [] && [st[i]][1..] == [];
      if i == 0 {
        assert st[0 := s][1..] == st[1..];
      } else {
        assert st[i := s][1..] == st[1..][i - 1 := s];
        RemainingUpdate(st[1..], i - 1, s);
      }
    }

    lemma {:induction false} StepConsumes(st: State, st': State)
      requires Next(st, st')
      ensures |st'| == |st| == |tasks| && Remaining(st') == Remaining(st) - 1
    {
      var i :| 0 <= i < |tasks| && (Starts(st, st', i) || Finishes(st, st', i));
      RemainingUpdate(st, i, st'[i]);
      assert [Pending][1..] == [] && [Running][1..] == [] && [Done][1..] == [];
    }

    lemma {:induction false} RemainingInit(st: State)
      requires forall i :: 0 <= i < |st| ==> st[i] == Pending
      ensures Remaining(st) == 2 * |st|
    {
      if st != [] { RemainingInit(st[1..]); }
    }

    /** A run takes at most two steps per task. */
    lemma {:induction false} RunsAreShort(run: seq<State>, k: nat)
      requires IsRun(run) && k < |run|
      ensures |run[k]| == |tasks| && Remaining(run[k]) + k == 2 * |tasks|
    {
      if k == 0 {
        RemainingInit(run[0]);
      } else {
        RunsAreShort(run, k - 1);
        StepConsumes(run[k - 1], run[k]);
      }
    }

    /** No run gets stuck: in its last state every task is done or some step is possible. */
    ghost predicate NeverStuck()
    {
      forall run :: IsRun(run) && !AllDone(run[|run| - 1]) ==> CanStep(run[|run| - 1])
    }

    ghost predicate CanStep(st: State)
    {
      exists st' :: Next(st, st')
    }

    /** rank puts every dependency that is not an outside task before its dependent. */
    ghost predicate Ranks(rank: seq<nat>)
    {
      |rank| == |tasks| && forall i, id :: 0 <= i < |tasks| && DependsOn(i, id) ==> RankedBefore(rank, i, id)
    }

    ghost predicate RankedBefore(rank: seq<nat>, i: nat, id: string)
      requires |rank| == |tasks| && i < |tasks|
    {
      id in outside || exists j :: 0 <= j < |tasks| && tasks[j].id == id && rank[j] < rank[i]
    }

    /** The tasks can be put in an order in which every dependency comes first. */
    ghost predicate Orderable()
    {
      exists rank :: Ranks(rank)
    }

    lemma {:induction false} LowestUnfinished(st: State, rank: seq<nat>, i: nat) returns (m: nat)
      requires |rank| == |st| && i < |st| && st[i] != Done
      ensures m < |st| && st[m] != Done
      ensures forall j :: 0 <= j < |st| && rank[j] < rank[m] ==> st[j] == Done
      decreases rank[i]
    {
      if j :| 0 <= j < |st| && rank[j] < rank[i] && st[j] != Done {
        m := LowestUnfinished(st, rank, j);
      } else {
        m := i;
      }
    }

    lemma CanMove(st: State, i: nat)
      requires |st| == |tasks| && i < |st| && (st[i] == Running || (st[i] == Pending && Ready(st, i)))
      ensures CanStep(st)
    {
      if st[i] == Running {
        assert Finishes(st, st[i := Done], i);
        assert Next(st, st[i := Done]);
      } else {
        assert Starts(st, st[i := Running], i);
        assert Next(st, st[i := Running]);
      }
    }

    lemma RankedCanStep(st: State, rank: seq<nat>)
      requires Ranks(rank) && |st| == |tasks| && !AllDone(st)
      ensures CanStep(st)
    {
      var i :| 0 <= i < |st| && st[i] != Done;
      var m := LowestUnfinished(st, rank, i);
      forall id | DependsOn(m, id) ensures Finished(st, id) {
        assert RankedBefore(rank, m, id);
      }
      CanMove(st, m);
    }

    /** The order of starting, as recorded so far along a run. */
    ghost predicate StartOrder(st: State, rank: seq<nat>, clock: nat)
    {
      && |rank| == |st| == |tasks|
      && (forall i :: 0 <= i < |st| && st[i] != Pending ==> rank[i] < clock)
      && (forall i, id :: 0 <= i < |st| && st[i] != Pending && DependsOn(i, id) ==> StartedBefore(st, rank, i, id))
    }

    ghost predicate StartedBefore(st: State, rank: seq<nat>, i: nat, id: string)
      requires |rank| == |st| == |tasks| && i < |tasks|
    {
      id in outside || exists j :: 0 <= j < |tasks| && tasks[j].id == id && st[j] != Pending && rank[j] < rank[i]
    }

    lemma StartOrderStep(st: State, st': State, rank: seq<nat>, clock: nat) returns (rank': seq<nat>)
      requires StartOrder(st, rank, clock) && Next(st, st')
      ensures StartOrder(st', rank', clock + 1)
    {
      var i :| 0 <= i < |tasks| && (Starts(st, st', i) || Finishes(st, st', i));
      rank' := if st[i] == Pending then rank[i := clock] else rank;
      forall k, id | 0 <= k < |st'| && st'[k] != Pending && DependsOn(k, id)
        ensures StartedBefore(st', rank', k, id)
      {
        if id !in outside {
          if st[k] == Pending {
            assert Ready(st, k) && Finished(st, id);
            var j :| 0 <= j < |tasks| && tasks[j].id == id && st[j] == Done;
            assert st'[j] != Pending && rank'[j] < rank'[k];
          } else {
            assert StartedBefore(st, rank, k, id);
            var j :| 0 <= j < |tasks| && tasks[j].id == id && st[j] != Pending && rank[j] < rank[k];
            assert st'[j] != Pending && rank'[j] < rank'[k];
          }
        }
      }
    }

    /** Running to the end records an order of starting that ranks every dependency. */
    lemma {:induction false} RunToEnd(run: seq<State>, rank: seq<nat>, clock: nat)
      requires NeverStuck() && IsRun(run) && StartOrder(run[|run| - 1], rank, clock)
      ensures Orderable()
      decreases Remaining(run[|run| - 1])
    {
      var st := run[|run| - 1];
      if AllDone(st) {
        forall i, id | 0 <= i < |tasks| && DependsOn(i, id) ensures RankedBefore(rank, i, id) {
          assert StartedBefore(st, rank, i, id);
        }
        assert Ranks(rank);
      } else {
        assert CanStep(st);
        var st' :| Next(st, st');
        var rank' := StartOrderStep(st, st', rank, clock);
        StepConsumes(st, st');
        RunToEnd(run + [st'], rank', clock + 1);
      }
    }

    /** The batch never gets stuck exactly when its declared and added dependencies can be ordered. */
    lemma DrainsExactly()
      ensures NeverStuck() <==> Orderable()
    {
      if Orderable() {
        var rank :| Ranks(rank);
        forall run | IsRun(run) && !AllDone(run[|run| - 1]) ensures CanStep(run[|run| - 1]) {
          RunsAreShort(run, |run| - 1);
          RankedCanStep(run[|run| - 1], rank);
        }
      }
      if NeverStuck() {
        var st: State := seq(|tasks|, i => Pending);
        var rank: seq<nat> := seq(|tasks|, i => 0);
        assert IsRun([st]) && [st][|[st]| - 1] == st;
        RunToEnd([st], rank, 0);
      }
    }

    // ------------------------------------------------------------ cycles

    /** Every dependency is a task of the batch or a finished outside task. */
    ghost predicate Closed()
    {
      forall i, id :: 0 <= i < |tasks| && DependsOn(i, id) ==> Known(id)
    }

    ghost predicate Known(id: string)
    {
      id in outside || exists j :: 0 <= j < |tasks| && tasks[j].id == id
    }

    ghost predicate Edge(i: nat, j: nat)
    {
      i < |tasks| && j < |tasks| && DependsOn(i, tasks[j].id)
    }

    ghost predicate Walk(p: seq<nat>)
    {
      p != [] && forall k :: 0 <= k < |p| - 1 ==> Edge(p[k], p[k + 1])
    }

    ghost predicate Cyclic()
    {
      exists p :: Walk(p) && |p| > 1 && p[0] == p[|p| - 1]
    }

    lemma RankOrders(rank: seq<nat>, i: nat, j: nat)
      requires UniqueIds() && Ranks(rank) && i < |tasks| && j < |tasks| && DependsOn(i, tasks[j].id)
      ensures rank[j] < rank[i]
    {
      assert RankedBefore(rank, i, tasks[j].id);
      var k :| 0 <= k < |tasks| && tasks[k].id == tasks[j].id && rank[k] < rank[i];
      assert k == j;
    }

    lemma {:induction false} RankFalls(rank: seq<nat>, p: seq<nat>)
      requires UniqueIds() && Ranks(rank) && Walk(p) && |p| > 1
      ensures p[0] < |rank| && p[|p| - 1] < |rank| && rank[p[|p| - 1]] < rank[p[0]]
    {
      var n := |p| - 1;
      assert Edge(p[n - 1], p[n]);
      RankOrders(rank, p[n - 1], p[n]);
      if n > 1 {
        assert forall k :: 0 <= k < n - 1 ==> Edge(p[..n][k], p[..n][k + 1]) by {
          assert forall k :: 0 <= k < n - 1 ==> Edge(p[k], p[k + 1]);
        }
        RankFalls(rank, p[..n]);
      }
    }

    /** In a state without a step every task that is not done waits for another one that is not. */
    lemma WaitsForAnother(st: State, i: nat) returns (j: nat)
      requires Closed() && |st| == |tasks| && !CanStep(st) && i < |st| && st[i] != Done
      ensures Edge(i, j) && st[j] != Done
    {
      if st[i] == Running || Ready(st, i) { CanMove(st, i); }
      var id :| DependsOn(i, id) && !Finished(st, id);
      assert Known(id);
      j :| 0 <= j < |tasks| && tasks[j].id == id;
    }

    lemma {:induction false} LongWalk(st: State, i: nat, n: nat) returns (p: seq<nat>)
      requires Closed() && |st| == |tasks| && !CanStep(st) && i < |st| && st[i] != Done
      ensures Walk(p) && |p| == n + 1 && forall k :: 0 <= k < |p| ==> p[k] < |tasks| && st[p[k]] != Done
    {
      if n == 0 {
        p := [i];
      } else {
        p := LongWalk(st, i, n - 1);
        var j := WaitsForAnother(st, p[n - 1]);
        p := p + [j];
      }
    }

    /** A stuck state has a cycle: a walk longer than the batch meets a task twice. */
    lemma StuckMeansCyclic(st: State, i: nat)
      requires Closed() && |st| == |tasks| && !CanStep(st) && i < |st| && st[i] != Done
      ensures Cyclic()
    {
      var p := LongWalk(st, i, |tasks|);
      if Distinct(p) { DistinctFits(p, |tasks|); }
      var a: nat, b: nat :| a < b < |p| && p[a] == p[b];
      ReturnIsCycle(p, a, b);
    }

    lemma ReturnIsCycle(p: seq<nat>, a: nat, b: nat)
      requires Walk(p) && a < b < |p| && p[a] == p[b]
      ensures Cyclic()
    {
      var cycle := p[a..b + 1];
      assert Walk(cycle) by {
        forall k | 0 <= k < |cycle| - 1 ensures Edge(cycle[k], cycle[k + 1]) {
          assert Edge(p[a + k], p[a + k + 1]);
        }
      }
      assert cycle[0] == cycle[|cycle| - 1];
    }

    /** The dependencies can be ordered exactly when none of them is unknown and none leads back to its task. */
    lemma OrderableExactly()
      requires UniqueIds()
      ensures Orderable() <==> Closed() && !Cyclic()
    {
      if Orderable() {
        var rank :| Ranks(rank);
        forall i, id | 0 <= i < |tasks| && DependsOn(i, id) ensures Known(id) {
          assert RankedBefore(rank, i, id);
        }
        forall p | Walk(p) && |p| > 1 ensures p[0] != p[|p| - 1] {
          RankFalls(rank, p);
        }
      }
      if Closed() && !Cyclic() {
        forall run | IsRun(run) && !AllDone(run[|run| - 1]) ensures CanStep(run[|run| - 1]) {
          var st := run[|run| - 1];
          RunsAreShort(run, |run| - 1);
          var i :| 0 <= i < |st| && st[i] != Done;
          if !CanStep(st) { StuckMeansCyclic(st, i); }
        }
        DrainsExactly();
      }
    }

    /** The same for the batch as it runs: it drains exactly without unknown dependencies and cycles. */
    lemma DrainsWithoutCycles()
      requires UniqueIds()
      ensures NeverStuck() <==> Closed() && !Cyclic()
    {
      DrainsExactly();
      OrderableExactly();
    }

    /** Declared dependencies point to earlier tasks of the batch or to finished outside tasks. */
    ghost predicate PointsBack()
    {
      forall i, id :: 0 <= i < |tasks| && id in Declared(tasks[i]) ==>
        id in outside || exists j :: 0 <= j < i && tasks[j].id == id
    }

    /** With backward declarations no cycle forms, so every run drains. */
    lemma BackwardDrains()
      requires UniqueIds() && PointsBack()
      ensures Orderable() && NeverStuck()
    {
      var rank: seq<nat> := seq(|tasks|, (i: nat) => i);
      forall i, id | 0 <= i < |tasks| && DependsOn(i, id) ensures RankedBefore(rank, i, id) {
        if id !in Declared(tasks[i]) { EdgesExactly(tasks, i, id); }
      }
      assert Ranks(rank);
      DrainsExactly();
    }

    lemma {:induction false} NoRankBelowItself(rank: seq<nat>, id: string, k: nat)
      requires k < |tasks| && tasks[k].id == id && id !in outside
      requires forall m :: 0 <= m < |tasks| && tasks[m].id == id ==> DependsOn(m, id)
      ensures !Ranks(rank)
      decreases if k < |rank| then rank[k] else 0
    {
      if Ranks(rank) {
        assert RankedBefore(rank, k, id);
        var m :| 0 <= m < |tasks| && tasks[m].id == id && rank[m] < rank[k];
        NoRankBelowItself(rank, id, m);
      }
    }

    /** Edges name tasks by id: where two overlapping tasks share one, both are made to wait for it, and neither starts. */
    lemma SharedIdBlocks(i: nat, j: nat)
      requires i < j < |tasks| && tasks[i].id == tasks[j].id && Conflict(i, j)
      requires tasks[i].id !in Declared(tasks[j]) && tasks[i].id !in outside
      ensures !NeverStuck()
    {
      ConflictIsOrdered(i, j);
      forall rank ensures !Ranks(rank) {
        NoRankBelowItself(rank, tasks[i].id, i);
      }
      DrainsExactly();
    }

    /** A task that declares a dependency on a later, overlapping task blocks the batch. */
    lemma ForwardOverlapBlocks(i: nat, j: nat)
      requires UniqueIds() && i < j < |tasks| && tasks[j].id in Declared(tasks[i]) && Conflict(i, j)
      ensures !NeverStuck()
    {
      ConflictIsOrdered(i, j);
      assert DependsOn(i, tasks[j].id);
      forall rank ensures !Ranks(rank) {
        if Ranks(rank) {
          RankOrders(rank, i, j);
          RankOrders(rank, j, i);
        }
      }
      DrainsExactly();
    }
  }
}
