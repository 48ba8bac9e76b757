/**
 Greedy packing of spans into lanes: every span goes to the lowest lane whose occupant has ended. It opens
 exactly as many lanes as the largest number of spans that cover one instant.
 */
module Lanes {
  import opened Seqs
  import opened Spans

  /** Spans of one lane never overlap in time; abutting spans may share a lane. */
  ghost predicate Packing(spans: seq<Span>, laneOf: seq<nat>, lanes: nat)
  {
    && |laneOf| == |spans|
    && (forall i :: 0 <= i < |laneOf| ==> laneOf[i] < lanes)
    && (forall i, j :: 0 <= i < |spans| && 0 <= j < |spans| && i != j && laneOf[i] == laneOf[j] ==>
          spans[i].endMs <= spans[j].startMs || spans[j].endMs <= spans[i].startMs)
  }

  /** A span sits above lane l only when l was occupied at the moment the span started. */
  ghost predicate LowestLane(spans: seq<Span>, laneOf: seq<nat>)
    requires |laneOf| == |spans|
  {
    forall i, l :: 0 <= i < |spans| && 0 <= l < laneOf[i] ==> LaneBusy(spans, laneOf, l, spans[i].startMs)
  }

  ghost predicate LaneBusy(spans: seq<Span>, laneOf: seq<nat>, l: nat, t: int)
    requires |laneOf| == |spans|
  {
    exists k :: 0 <= k < |spans| && laneOf[k] == l && Covers(spans[k], t)
  }

  ghost predicate LaneUsed(laneOf: seq<nat>, l: nat)
  {
    exists k :: 0 <= k < |laneOf| && laneOf[k] == l
  }

  /** No assignment of spans to lanes can use fewer lanes than the concurrency at any instant. */
  lemma {:induction false} PackingNeedsPeak(spans: seq<Span>, laneOf: seq<nat>, lanes: nat, t: int)
    requires NonEmptySpans(spans) && Packing(spans, laneOf, lanes)
    ensures Concurrency(spans, t) <= lanes
  {
    CoveringSize(spans, t);
    var f := (i: nat) => if i < |laneOf| then laneOf[i] else 0;
    InjectionBound(Covering(spans, t), f, lanes);
  }

  /** Occupied lanes 0..n-1 at the instant t give n different spans covering t. */
  lemma {:induction false} BusyLanesCount(spans: seq<Span>, laneOf: seq<nat>, n: nat, t: int) returns (witnesses: set<nat>)
    requires |laneOf| == |spans|
    requires forall l :: 0 <= l < n ==> LaneBusy(spans, laneOf, l, t)
    ensures witnesses <= Covering(spans, t) && |witnesses| == n
    ensures forall i :: i in witnesses ==> laneOf[i] < n
  {
    witnesses := {};
    if n > 0 {
      witnesses := BusyLanesCount(spans, laneOf, n - 1, t);
      assert LaneBusy(spans, laneOf, n - 1, t);
      var k: nat :| 0 <= k < |spans| && laneOf[k] == n - 1 && Covers(spans[k], t);
      witnesses := witnesses + {k};
    }
  }

  lemma SubsetSize(a: set<nat>, b: set<nat>)
    requires a <= b
    ensures |a| <= |b|
  {
    assert b == a + (b - a);
  }

  /** Greedy packing is optimal: it opens exactly as many lanes as the peak concurrency. */
  lemma GreedyLanesArePeak(spans: seq<Span>, laneOf: seq<nat>, lanes: nat)
    requires NonEmptySpans(spans) && GreedyPacking(spans, laneOf, lanes)
    ensures IsPeak(spans, lanes)
  {
    forall t ensures Concurrency(spans, t) <= lanes { PackingNeedsPeak(spans, laneOf, lanes, t); }
    if lanes == 0 {
      assert Concurrency(spans, 0) == 0;
    } else {
      assert LaneUsed(laneOf, lanes - 1);
      var i :| 0 <= i < |laneOf| && laneOf[i] == lanes - 1;
      var t := spans[i].startMs;
      assert Covers(spans[i], t);
      assert LaneBusy(spans, laneOf, lanes - 1, t);
      var witnesses := BusyLanesCount(spans, laneOf, lanes, t);
      CoveringSize(spans, t);
      SubsetSize(witnesses, Covering(spans, t));
      assert Concurrency(spans, t) == lanes;
    }
  }

  lemma PeakUnique(spans: seq<Span>, p: int, q: int)
    requires IsPeak(spans, p) && IsPeak(spans, q)
    ensures p == q
  {
    var t :| Concurrency(spans, t) == p;
    var u :| Concurrency(spans, u) == q;
  }

  /** The order of the packer: by start, then by end. */
  function ByStartThenEnd(): ((Span, nat), (Span, nat)) -> bool
  {
    (a: (Span, nat), b: (Span, nat)) =>
      a.0.startMs < b.0.startMs || (a.0.startMs == b.0.startMs && a.0.endMs <= b.0.endMs)
  }

  /** The first lane whose occupant ended by startMs, or -1. */
  function FindFreeLane(laneEndMs: seq<int>, startMs: int): (lane: int)
    ensures -1 <= lane < |laneEndMs|
    ensures lane >= 0 ==> laneEndMs[lane] <= startMs
    ensures forall l :: 0 <= l < |laneEndMs| && (lane < 0 || l < lane) ==> laneEndMs[l] > startMs
  {
    if laneEndMs == [] then -1
    else if laneEndMs[0] <= startMs then 0
    else
      var rest := FindFreeLane(laneEndMs[1..], startMs);
      if rest < 0 then -1 else rest + 1
  }

  function Indexed(spans: seq<Span>): seq<(Span, nat)>
  {
    seq(|spans|, (i: nat) requires i < |spans| => (spans[i], i))
  }

  function FirstOf(sorted: seq<(Span, nat)>): seq<Span>
  {
    seq(|sorted|, (p: nat) requires p < |sorted| => sorted[p].0)
  }

  function SecondOf(sorted: seq<(Span, nat)>): seq<nat>
  {
    seq(|sorted|, (p: nat) requires p < |sorted| => sorted[p].1)
  }

  /** ss lists the spans in the order perm of their positions. */
  ghost predicate Reorders(ss: seq<Span>, perm: seq<nat>, spans: seq<Span>)
  {
    && |ss| == |perm| == |spans|
    && Distinct(perm)
    && (forall i: nat :: i < |spans| ==> i in perm)
    && (forall p :: 0 <= p < |perm| ==> perm[p] < |spans| && ss[p] == spans[perm[p]])
  }

  /** Spans that start together stand by their ends, and at a tie by their positions. */
  ghost predicate TiesOrdered(ss: seq<Span>, perm: seq<nat>)
    requires |perm| == |ss|
  {
    forall p, q :: 0 <= p < q < |ss| && ss[p].startMs == ss[q].startMs ==>
      ss[p].endMs < ss[q].endMs || (ss[p].endMs == ss[q].endMs && perm[p] < perm[q])
  }

  ghost predicate StartsAscend(ss: seq<Span>)
  {
    forall p, q :: 0 <= p < q < |ss| ==> ss[p].startMs <= ss[q].startMs
  }

  lemma IndexedPermutation(spans: seq<Span>, b: seq<(Span, nat)>)
    requires multiset(b) == multiset(Indexed(spans))
    ensures Reorders(FirstOf(b), SecondOf(b), spans)
  {
    var a := Indexed(spans);
    PermutationLength(a, b);
    PermutationMembers(a, b);
    assert Distinct(a);
    DistinctPermutation(a, b);
    forall x | x in b ensures x.1 < |spans| && x.0 == spans[x.1] {
      assert x in a;
    }
    forall i: nat | i < |spans| ensures i in SecondOf(b) {
      assert a[i] in b;
      var p :| 0 <= p < |b| && b[p] == a[i];
      assert SecondOf(b)[p] == i;
    }
  }

  lemma SortedOrder(spans: seq<Span>)
    ensures var b := Sort(Indexed(spans), ByStartThenEnd());
            Reorders(FirstOf(b), SecondOf(b), spans) && StartsAscend(FirstOf(b))
  {
    var le := ByStartThenEnd();
    SortSorts(Indexed(spans), le);
    var b := Sort(Indexed(spans), le);
    IndexedPermutation(spans, b);
    forall p, q | 0 <= p < q < |b| ensures b[p].0.startMs <= b[q].0.startMs {
      assert le(b[p], b[q]);
    }
  }

  lemma PairKeepsPlace(a: seq<(Span, nat)>, b: seq<(Span, nat)>, le: ((Span, nat), (Span, nat)) -> bool, p: nat, q: nat)
    requires TotalPreorder(le) && b == Sort(a, le) && Distinct(b) && p < q < |b| && le(b[q], b[p])
    ensures !Before(a, b[q], b[p])
  {
    assert Before(b, b[p], b[q]);
    OneWay(b, b[p], b[q]);
    if Before(a, b[q], b[p]) { SortKeepsBefore(a, le, b[q], b[p]); }
  }

  lemma TiesSorted(spans: seq<Span>, b: seq<(Span, nat)>)
    requires b == Sort(Indexed(spans), ByStartThenEnd())
    ensures TiesOrdered(FirstOf(b), SecondOf(b))
  {
    var a, le, perm := Indexed(spans), ByStartThenEnd(), SecondOf(b);
    SortedOrder(spans);
    SortSorts(a, le);
    DistinctPairs(b);
    forall p, q | 0 <= p < q < |b| && b[p].0.startMs == b[q].0.startMs
      ensures b[p].0.endMs < b[q].0.endMs || (b[p].0.endMs == b[q].0.endMs && b[p].1 < b[q].1)
    {
      assert le(b[p], b[q]) && perm[p] != perm[q];
      if b[p].0.endMs == b[q].0.endMs {
        PairKeepsPlace(a, b, le, p, q);
        assert b[p] == a[perm[p]] && b[q] == a[perm[q]];
      }
    }
  }

  lemma DistinctPairs(b: seq<(Span, nat)>)
    requires Distinct(SecondOf(b))
    ensures Distinct(b)
  {
    forall p, q | 0 <= p < q < |b| ensures b[p] != b[q] {
      assert SecondOf(b)[p] != SecondOf(b)[q];
    }
  }

  // The packer's state after some spans: laneEndMs holds the end of each lane's last occupant.

  ghost predicate EndsBound(spans: seq<Span>, laneOf: seq<nat>, laneEndMs: seq<int>)
    requires |laneOf| == |spans|
  {
    forall i :: 0 <= i < |spans| ==> laneOf[i] < |laneEndMs| && spans[i].endMs <= laneEndMs[laneOf[i]]
  }

  ghost predicate EndsAttained(spans: seq<Span>, laneOf: seq<nat>, laneEndMs: seq<int>)
    requires |laneOf| == |spans|
  {
    forall l :: 0 <= l < |laneEndMs| ==> LaneEndsAt(spans, laneOf, l, laneEndMs[l])
  }

  ghost predicate LaneEndsAt(spans: seq<Span>, laneOf: seq<nat>, l: nat, e: int)
    requires |laneOf| == |spans|
  {
    exists k :: 0 <= k < |spans| && laneOf[k] == l && spans[k].endMs == e
  }

  ghost predicate Packed(spans: seq<Span>, laneOf: seq<nat>, laneEndMs: seq<int>)
  {
    && Packing(spans, laneOf, |laneEndMs|)
    && EndsBound(spans, laneOf, laneEndMs)
    && EndsAttained(spans, laneOf, laneEndMs)
    && LowestLane(spans, laneOf)
    && Climbs(spans, laneOf)
  }

  /** Of spans that start together a later one of the list sits above an earlier one. */
  ghost predicate Climbs(spans: seq<Span>, laneOf: seq<nat>)
    requires |laneOf| == |spans|
  {
    forall p, q :: 0 <= p < q < |spans| && spans[p].startMs == spans[q].startMs ==> laneOf[p] < laneOf[q]
  }

  /** lane is where the packer puts a span starting at startMs. */
  ghost predicate Chosen(laneEndMs: seq<int>, startMs: int, lane: nat)
  {
    var free := FindFreeLane(laneEndMs, startMs);
    lane == if free == -1 then |laneEndMs| else free
  }

  function EndLane(laneEndMs: seq<int>, lane: nat, endMs: int): seq<int>
    requires lane <= |laneEndMs|
  {
    if lane == |laneEndMs| then laneEndMs + [endMs] else laneEndMs[lane := endMs]
  }

  lemma EndLaneUpdate(laneEndMs: seq<int>, lane: nat, endMs: int)
    requires lane <= |laneEndMs|
    ensures EndLane(laneEndMs, lane, endMs) ==
            (if lane == |laneEndMs| then laneEndMs + [0] else laneEndMs)[lane := endMs]
  {
  }

  lemma PlaceEnds(spans: seq<Span>, laneOf: seq<nat>, laneEndMs: seq<int>, s: Span, lane: nat)
    requires Packed(spans, laneOf, laneEndMs) && NonEmptySpans(spans + [s])
    requires Chosen(laneEndMs, s.startMs, lane)
    ensures EndsBound(spans + [s], laneOf + [lane], EndLane(laneEndMs, lane, s.endMs))
    ensures EndsAttained(spans + [s], laneOf + [lane], EndLane(laneEndMs, lane, s.endMs))
  {
    var spans', laneOf', ends' := spans + [s], laneOf + [lane], EndLane(laneEndMs, lane, s.endMs);
    var n := |spans|;
    assert spans'[n] == s && laneOf'[n] == lane && s.startMs < s.endMs;
    forall i | 0 <= i < |spans'| ensures laneOf'[i] < |ends'| && spans'[i].endMs <= ends'[laneOf'[i]] {
      if i < n {
        assert laneOf'[i] == laneOf[i];
      }
    }
    forall l: nat | l < |ends'| ensures LaneEndsAt(spans', laneOf', l, ends'[l]) {
      if l != lane {
        assert LaneEndsAt(spans, laneOf, l, laneEndMs[l]);
        var k :| 0 <= k < n && laneOf[k] == l && spans[k].endMs == laneEndMs[l];
        assert laneOf'[k] == l && spans'[k].endMs == ends'[l];
      }
    }
  }

  lemma PlaceLowest(spans: seq<Span>, laneOf: seq<nat>, laneEndMs: seq<int>, s: Span, lane: nat)
    requires Packed(spans, laneOf, laneEndMs) && StartsAscend(spans + [s])
    requires Chosen(laneEndMs, s.startMs, lane)
    ensures LowestLane(spans + [s], laneOf + [lane])
  {
    var spans', laneOf', n := spans + [s], laneOf + [lane], |spans|;
    forall i: nat, l: nat | i < |spans'| && l < laneOf'[i]
      ensures LaneBusy(spans', laneOf', l, spans'[i].startMs)
    {
      if i < n {
        assert LaneBusy(spans, laneOf, l, spans[i].startMs);
        var k :| 0 <= k < n && laneOf[k] == l && Covers(spans[k], spans[i].startMs);
        assert laneOf'[k] == l && Covers(spans'[k], spans'[i].startMs);
      } else {
        assert LaneEndsAt(spans, laneOf, l, laneEndMs[l]);
        var k :| 0 <= k < n && laneOf[k] == l && spans[k].endMs == laneEndMs[l];
        assert spans'[k].startMs <= spans'[n].startMs;
        assert laneOf'[k] == l && Covers(spans'[k], s.startMs);
      }
    }
  }

  lemma PlaceClimbs(spans: seq<Span>, laneOf: seq<nat>, laneEndMs: seq<int>, s: Span, lane: nat)
    requires Packed(spans, laneOf, laneEndMs) && NonEmptySpans(spans + [s])
    requires Chosen(laneEndMs, s.startMs, lane)
    ensures Climbs(spans + [s], laneOf + [lane])
  {
    var spans', n := spans + [s], |spans|;
    forall p | 0 <= p < n && spans[p].startMs == s.startMs ensures laneOf[p] < lane {
      assert spans'[p].startMs < spans'[p].endMs;
      forall l: nat | l <= laneOf[p] ensures laneEndMs[l] > s.startMs {
        if l < laneOf[p] {
          assert LaneBusy(spans, laneOf, l, spans[p].startMs);
          var k :| 0 <= k < n && laneOf[k] == l && Covers(spans[k], s.startMs);
        }
      }
    }
  }

  /** Packing and lowest-lane placement do not depend on the order in which spans are listed. */
  lemma ReorderPacking(ss: seq<Span>, ls: seq<nat>, perm: seq<nat>, spans: seq<Span>, laneOf: seq<nat>, lanes: nat)
    requires Reorders(ss, perm, spans) && |ls| == |ss| && |laneOf| == |spans|
    requires forall p :: 0 <= p < |perm| ==> laneOf[perm[p]] == ls[p]
    requires Packing(ss, ls, lanes) && LowestLane(ss, ls)
    ensures Packing(spans, laneOf, lanes)
    ensures LowestLane(spans, laneOf)
  {
    forall i: nat | i < |spans| ensures laneOf[i] < lanes { assert i in perm; }
    forall i: nat, j: nat | i < |spans| && j < |spans| && i != j && laneOf[i] == laneOf[j]
      ensures spans[i].endMs <= spans[j].startMs || spans[j].endMs <= spans[i].startMs
    {
      assert i in perm && j in perm;
      var p :| 0 <= p < |perm| && perm[p] == i;
      var q :| 0 <= q < |perm| && perm[q] == j;
      assert ss[p] == spans[i] && ss[q] == spans[j];
    }
    forall i: nat, l: nat | i < |spans| && l < laneOf[i] ensures LaneBusy(spans, laneOf, l, spans[i].startMs) {
      assert i in perm;
      var p :| 0 <= p < |perm| && perm[p] == i;
      assert LaneBusy(ss, ls, l, ss[p].startMs);
      var k :| 0 <= k < |ss| && ls[k] == l && Covers(ss[k], ss[p].startMs);
      assert laneOf[perm[k]] == l && Covers(spans[perm[k]], spans[i].startMs);
    }
  }

  ghost predicate Recorded(perm: seq<nat>, ls: seq<nat>, laneOf: seq<nat>)
  {
    |ls| <= |perm| && forall p :: 0 <= p < |ls| ==> perm[p] < |laneOf| && laneOf[perm[p]] == ls[p]
  }

  /** The packer after |ls| spans of its order: ls are their lanes, recorded in laneOf by position. */
  ghost predicate Progress(ss: seq<Span>, perm: seq<nat>, ls: seq<nat>, laneOf: seq<nat>, laneEndMs: seq<int>)
  {
    && |ls| <= |ss| == |perm|
    && Packed(ss[..|ls|], ls, laneEndMs)
    && Recorded(perm, ls, laneOf)
  }

  lemma PlaceSpan(spans: seq<Span>, laneOf: seq<nat>, laneEndMs: seq<int>, s: Span, lane: nat)
    requires Packed(spans, laneOf, laneEndMs)
    requires NonEmptySpans(spans + [s]) && StartsAscend(spans + [s])
    requires Chosen(laneEndMs, s.startMs, lane)
    ensures Packed(spans + [s], laneOf + [lane], EndLane(laneEndMs, lane, s.endMs))
  {
    PlaceEnds(spans, laneOf, laneEndMs, s, lane);
    PlaceLowest(spans, laneOf, laneEndMs, s, lane);
    PlaceClimbs(spans, laneOf, laneEndMs, s, lane);
  }

  /** The lane of one more span is recorded; the positions in perm are distinct. */
  lemma RecordLane(perm: seq<nat>, ls: seq<nat>, laneOf: seq<nat>, lane: nat)
    requires Recorded(perm, ls, laneOf) && |ls| < |perm| && perm[|ls|] < |laneOf|
    requires forall p, q :: 0 <= p < q < |perm| ==> perm[p] != perm[q]
    ensures Recorded(perm, ls + [lane], laneOf[perm[|ls|] := lane])
  {
    forall p | 0 <= p < |ls| ensures laneOf[perm[|ls|] := lane][perm[p]] == ls[p] {
      assert perm[p] != perm[|ls|];
    }
  }

  lemma PlaceStep(spans: seq<Span>, ss: seq<Span>, perm: seq<nat>, ls: seq<nat>, laneOf: seq<nat>,
                  laneEndMs: seq<int>, lane: nat)
    requires |ls| < |ss| && NonEmptySpans(spans) && StartsAscend(ss) && Reorders(ss, perm, spans)
    requires |laneOf| == |spans| && Progress(ss, perm, ls, laneOf, laneEndMs)
    requires Chosen(laneEndMs, ss[|ls|].startMs, lane)
    ensures Progress(ss, perm, ls + [lane], laneOf[perm[|ls|] := lane], EndLane(laneEndMs, lane, ss[|ls|].endMs))
  {
    RecordLane(perm, ls, laneOf, lane);
    assert ss[..|ls| + 1] == ss[..|ls|] + [ss[|ls|]];
    PlaceSpan(ss[..|ls|], ls, laneEndMs, ss[|ls|], lane);
  }

  /** Which of two spans the packer takes first. */
  ghost predicate TakenBefore(spans: seq<Span>, i: nat, j: nat)
    requires i < |spans| && j < |spans|
  {
    spans[i].startMs < spans[j].startMs ||
    (spans[i].startMs == spans[j].startMs &&
     (spans[i].endMs < spans[j].endMs || (spans[i].endMs == spans[j].endMs && i < j)))
  }

  /** Of spans that start together the one that ends later, or comes later in the list, sits higher. */
  ghost predicate TiesClimb(spans: seq<Span>, laneOf: seq<nat>)
    requires |laneOf| == |spans|
  {
    forall i: nat, j: nat :: i < |spans| && j < |spans| && TakenBefore(spans, i, j) ==>
      spans[i].startMs == spans[j].startMs ==> laneOf[i] < laneOf[j]
  }

  lemma ReorderTies(ss: seq<Span>, ls: seq<nat>, perm: seq<nat>, spans: seq<Span>, laneOf: seq<nat>)
    requires Reorders(ss, perm, spans) && TiesOrdered(ss, perm) && |ls| == |ss| && |laneOf| == |spans|
    requires forall p :: 0 <= p < |perm| ==> laneOf[perm[p]] == ls[p]
    requires Climbs(ss, ls)
    ensures TiesClimb(spans, laneOf)
  {
    forall i: nat, j: nat | i < |spans| && j < |spans| && spans[i].startMs == spans[j].startMs && TakenBefore(spans, i, j)
      ensures laneOf[i] < laneOf[j]
    {
      assert i in perm && j in perm;
      var p :| 0 <= p < |perm| && perm[p] == i;
      var q :| 0 <= q < |perm| && perm[q] == j;
      assert ss[p] == spans[i] && ss[q] == spans[j];
    }
  }

  /** Such a packing is the only one. */
  lemma {:induction false} PackingIsUnique(
    spans: seq<Span>, a: seq<nat>, lanesA: nat, b: seq<nat>, lanesB: nat, lo: int, i: nat)
    requires NonEmptySpans(spans) && (forall k :: 0 <= k < |spans| ==> lo <= spans[k].startMs) && i < |spans|
    requires GreedyPacking(spans, a, lanesA) && TiesClimb(spans, a)
    requires GreedyPacking(spans, b, lanesB) && TiesClimb(spans, b)
    ensures a[i] == b[i]
    decreases spans[i].startMs - lo, spans[i].endMs - spans[i].startMs, i
  {
    forall k: nat | k < |spans| && TakenBefore(spans, k, i) ensures a[k] == b[k] {
      PackingIsUnique(spans, a, lanesA, b, lanesB, lo, k);
    }
    NotLower(spans, a, lanesA, b, lanesB, i);
    NotLower(spans, b, lanesB, a, lanesA, i);
  }

  lemma BusyBelow(spans: seq<Span>, b: seq<nat>, i: nat, l: nat)
    requires |b| == |spans| && i < |spans| && LowestLane(spans, b)
    ensures l < b[i] ==> LaneBusy(spans, b, l, spans[i].startMs)
  {
  }

  lemma NotLower(spans: seq<Span>, a: seq<nat>, lanesA: nat, b: seq<nat>, lanesB: nat, i: nat)
    requires NonEmptySpans(spans) && i < |spans|
    requires GreedyPacking(spans, a, lanesA) && GreedyPacking(spans, b, lanesB) && TiesClimb(spans, b)
    requires forall k: nat :: k < |spans| && TakenBefore(spans, k, i) ==> a[k] == b[k]
    ensures b[i] <= a[i]
  {
    BusyBelow(spans, b, i, a[i]);
    forall k: nat | k < |spans| ensures a[i] < b[i] ==> !(b[k] == a[i] && Covers(spans[k], spans[i].startMs)) {
      assert k == i || TakenBefore(spans, k, i) || TakenBefore(spans, i, k);
    }
  }

  lemma Unsort(ss: seq<Span>, ls: seq<nat>, laneEndMs: seq<int>, perm: seq<nat>, spans: seq<Span>, laneOf: seq<nat>)
    requires NonEmptySpans(spans) && |ls| == |ss| && |laneOf| == |spans|
    requires Reorders(ss, perm, spans) && TiesOrdered(ss, perm) && Progress(ss, perm, ls, laneOf, laneEndMs)
    ensures GreedyPacking(spans, laneOf, |laneEndMs|) && TiesClimb(spans, laneOf)
    ensures IsPeak(spans, |laneEndMs|)
  {
    assert ss[..|ls|] == ss;
    ReorderPacking(ss, ls, perm, spans, laneOf, |laneEndMs|);
    ReorderTies(ss, ls, perm, spans, laneOf);
    forall l: nat | l < |laneEndMs| ensures LaneUsed(laneOf, l) {
      assert LaneEndsAt(ss, ls, l, laneEndMs[l]);
    }
    GreedyLanesArePeak(spans, laneOf, |laneEndMs|);
  }

  /** What the packer promises: no overlap within a lane, lowest free lane, no unused lane. */
  ghost predicate GreedyPacking(spans: seq<Span>, laneOf: seq<nat>, lanes: nat)
  {
    && Packing(spans, laneOf, lanes)
    && LowestLane(spans, laneOf)
    && (forall l :: 0 <= l < lanes ==> LaneUsed(laneOf, l))
  }

  /** Greedy packing: each span, by start, goes to the lowest lane whose occupant has ended. */
  method AssignLanes(spans: seq<Span>) returns (laneOf: seq<nat>, lanes: nat)
    requires NonEmptySpans(spans)
    ensures GreedyPacking(spans, laneOf, lanes) && TiesClimb(spans, laneOf)
    ensures IsPeak(spans, lanes)
  {
    var sortedByMs := Sort(Indexed(spans), ByStartThenEnd());
    SortedOrder(spans);
    ghost var ss, perm := FirstOf(sortedByMs), SecondOf(sortedByMs);
    ghost var ls: seq<nat> := [];
    var laneEndMs: seq<int> := [];
    var spanLanes := new nat[|spans|](_ => 0);
    for k := 0 to |sortedByMs|
      invariant |ls| == k
      invariant Progress(ss, perm, ls, spanLanes[..], laneEndMs)
    {
      var (span, originalIdx) := sortedByMs[k];
      assert ss[k] == span && perm[k] == originalIdx;
      ghost var before, laneOf0 := laneEndMs, spanLanes[..];
      var lane := FindFreeLane(laneEndMs, span.startMs);
      if lane == -1 {
        lane := |laneEndMs|;
        laneEndMs := laneEndMs + [0];
      }
      laneEndMs := laneEndMs[lane := span.endMs];
      spanLanes[originalIdx] := lane;
      ghost var place: nat := lane;
      EndLaneUpdate(before, place, span.endMs);
      PlaceStep(spans, ss, perm, ls, laneOf0, before, place);
      ls := ls + [place];
      assert spanLanes[..] == laneOf0[originalIdx := lane];
    }
    laneOf, lanes := spanLanes[..], |laneEndMs|;
    TiesSorted(spans, sortedByMs);
    Unsort(ss, ls, laneEndMs, perm, spans, laneOf);
  }
}
