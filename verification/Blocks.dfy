/** The blocks of the chart: spans quantized into 15-minute slots and merged within each lane. */
module Blocks {
  import opened Seqs
  import opened Spans

  const SLOT_MS: int := 15 * 60 * 1000

  datatype SlottedSpan = SlottedSpan(startSlot: int, endSlot: int, state: BlockState, lane: nat)

  datatype Block = Block(lane: nat, startSlot: int, endSlot: int, state: BlockState)

  function FloorSlot(ms: int): int
  {
    ms / SLOT_MS
  }

  function CeilSlot(ms: int): int
  {
    (ms + SLOT_MS - 1) / SLOT_MS
  }

  function Max(a: int, b: int): int
  {
    if a >= b then a else b
  }

  function Slotted(s: Span, missionStartMs: int, lane: nat): SlottedSpan
  {
    var startSlot := FloorSlot(s.startMs - missionStartMs);
    var rawEnd := CeilSlot(s.endMs - missionStartMs);
    SlottedSpan(startSlot, Max(startSlot + 1, rawEnd), s.state, lane)
  }

  /** The instant lies in slot x: slots are a quarter of an hour long. */
  ghost predicate InSlot(ms: int, x: int)
  {
    x * 15 * 60000 <= ms < (x + 1) * 15 * 60000
  }

  /** A span is drawn from the slot of its start to the first slot boundary not before its end, in its lane and state. */
  ghost predicate IsSlotted(r: SlottedSpan, s: Span, missionStartMs: int, lane: nat)
  {
    && r.lane == lane && r.state == s.state
    && InSlot(s.startMs - missionStartMs, r.startSlot) && InSlot(s.endMs - missionStartMs - 1, r.endSlot - 1)
  }

  lemma SlottedExactly(s: Span, missionStartMs: int, lane: nat, r: SlottedSpan)
    requires s.startMs < s.endMs
    ensures IsSlotted(r, s, missionStartMs, lane) <==> r == Slotted(s, missionStartMs, lane)
  {
  }

  /** A slot belongs to a span's range exactly when the span covers one of the slot's instants. */
  lemma SlottedMeaning(s: Span, missionStartMs: int, lane: nat, x: int)
    requires missionStartMs <= s.startMs < s.endMs
    ensures var r := Slotted(s, missionStartMs, lane);
            r.startSlot <= x < r.endSlot <==>
            exists t :: Covers(s, t) && InSlot(t - missionStartMs, x)
  {
    var r := Slotted(s, missionStartMs, lane);
    if r.startSlot <= x < r.endSlot {
      var t := Max(s.startMs, missionStartMs + x * SLOT_MS);
      assert Covers(s, t) && InSlot(t - missionStartMs, x);
    }
  }

  /** Some span of the lane covers slot x. */
  ghost predicate Uses(ss: seq<SlottedSpan>, lane: nat, x: int)
  {
    exists i :: 0 <= i < |ss| && ss[i].lane == lane && ss[i].startSlot <= x < ss[i].endSlot
  }

  /** Some block of the lane covers slot x. */
  ghost predicate Drawn(blocks: seq<Block>, lane: nat, x: int)
  {
    exists i :: 0 <= i < |blocks| && blocks[i].lane == lane && blocks[i].startSlot <= x < blocks[i].endSlot
  }

  /** Blocks of one lane appear from left to right and do not overlap. */
  ghost predicate Apart(blocks: seq<Block>)
  {
    forall i, j :: 0 <= i < j < |blocks| && blocks[i].lane == blocks[j].lane ==>
      blocks[i].endSlot <= blocks[j].startSlot
  }

  ghost predicate Sized(blocks: seq<Block>, totalSlots: int)
  {
    forall b :: b in blocks ==> 0 <= b.startSlot < b.endSlot <= totalSlots
  }

  /** Some span of the lane reaches across the boundary in front of slot x. */
  ghost predicate Straddled(ss: seq<SlottedSpan>, lane: nat, x: int)
  {
    exists s :: s in ss && s.lane == lane && s.startSlot < x < s.endSlot
  }

  /** Ranges are joined into one block only where a span holds them together. */
  ghost predicate Joined(blocks: seq<Block>, ss: seq<SlottedSpan>)
  {
    forall b, x :: b in blocks && b.startSlot < x < b.endSlot ==> Straddled(ss, b.lane, x)
  }

  function BySlots(): (SlottedSpan, SlottedSpan) -> bool
  {
    (a: SlottedSpan, b: SlottedSpan) =>
      a.startSlot < b.startSlot || (a.startSlot == b.startSlot && a.endSlot <= b.endSlot)
  }

  ghost predicate Inside(s: SlottedSpan, b: Block)
  {
    s.lane == b.lane && b.startSlot <= s.startSlot && s.endSlot <= b.endSlot
  }

  /** The spans in the place of s: its lane and its slots. */
  function PlaceOf(s: SlottedSpan): SlottedSpan -> bool
  {
    (u: SlottedSpan) => u.lane == s.lane && u.startSlot == s.startSlot && u.endSlot == s.endSlot
  }

  ghost predicate SamePlace(u: SlottedSpan, s: SlottedSpan)
  {
    u.lane == s.lane && u.startSlot == s.startSlot && u.endSlot == s.endSlot
  }

  /** Of the spans in its place, s comes last in the list. */
  ghost predicate LastInPlace(s: SlottedSpan, ss: seq<SlottedSpan>)
  {
    exists k: nat :: LastAt(s, ss, k)
  }

  ghost predicate LastAt(s: SlottedSpan, ss: seq<SlottedSpan>, k: nat)
  {
    k < |ss| && ss[k] == s && forall j :: k < j < |ss| ==> !SamePlace(ss[j], s)
  }

  /** The same in terms of the list of them. */
  ghost predicate EndsPlace(s: SlottedSpan, ss: seq<SlottedSpan>)
  {
    var same := Filter(ss, PlaceOf(s));
    same != [] && same[|same| - 1] == s
  }

  lemma {:induction false} LastInPlaceExactly(s: SlottedSpan, ss: seq<SlottedSpan>)
    ensures LastInPlace(s, ss) <==> EndsPlace(s, ss)
  {
    if ss != [] {
      var n, p := |ss| - 1, PlaceOf(s);
      LastInPlaceExactly(s, ss[..n]);
      assert ss == ss[..n] + [ss[n]];
      FilterAppend(ss[..n], [ss[n]], p);
      assert Filter([ss[n]], p) == (if p(ss[n]) then [ss[n]] else []) + Filter([], p);
      LastInPlaceSnoc(s, ss);
    }
  }

  lemma LastInPlaceSnoc(s: SlottedSpan, ss: seq<SlottedSpan>)
    requires ss != []
    ensures var n := |ss| - 1;
            LastInPlace(s, ss) <==> if SamePlace(ss[n], s) then ss[n] == s else LastInPlace(s, ss[..n])
  {
    var n := |ss| - 1;
    if LastInPlace(s, ss) {
      var k: nat :| LastAt(s, ss, k);
      if k < n { assert LastAt(s, ss[..n], k); }
    }
    if SamePlace(ss[n], s) && ss[n] == s {
      assert LastAt(s, ss, n);
    }
    if !SamePlace(ss[n], s) && LastInPlace(s, ss[..n]) {
      var k: nat :| LastAt(s, ss[..n], k);
      assert forall j :: 0 <= j < n ==> ss[..n][j] == ss[j];
      assert LastAt(s, ss, k);
    }
  }

  /** A block has the state of the last of its spans, by slots, and at a tie by the order of the list. */
  ghost predicate Shown(b: Block, ss: seq<SlottedSpan>)
  {
    exists s :: ShownBy(s, b, ss)
  }

  ghost predicate ShownBy(s: SlottedSpan, b: Block, ss: seq<SlottedSpan>)
  {
    && s in ss && Inside(s, b) && s.state == b.state && LastInPlace(s, ss)
    && forall u :: u in ss && Inside(u, b) ==>
         u.startSlot < s.startSlot || (u.startSlot == s.startSlot && u.endSlot <= s.endSlot)
  }

  ghost predicate Placed(s: SlottedSpan, blocks: seq<Block>)
  {
    exists b :: b in blocks && Inside(s, b)
  }

  /** No span is cut: each lies inside one block. Each block shows the state of its last span. */
  ghost predicate Whole(blocks: seq<Block>, ss: seq<SlottedSpan>)
  {
    (forall s :: s in ss ==> Placed(s, blocks)) && forall b :: b in blocks ==> Shown(b, ss)
  }

  ghost predicate LaneSpansOk(ss: seq<SlottedSpan>, lane: nat, totalSlots: int)
  {
    forall s :: s in ss ==> s.lane == lane && 0 <= s.startSlot < s.endSlot <= totalSlots
  }

  ghost predicate OneLane(blocks: seq<Block>, lane: nat)
  {
    forall b :: b in blocks ==> b.lane == lane
  }

  lemma {:induction false} SortedLane(laneSpans: seq<SlottedSpan>, lane: nat, totalSlots: int)
    requires LaneSpansOk(laneSpans, lane, totalSlots)
    ensures var sorted := Sort(laneSpans, BySlots());
            && LaneSpansOk(sorted, lane, totalSlots) && |sorted| == |laneSpans|
            && (forall i, j :: 0 <= i < j < |sorted| ==> sorted[i].startSlot <= sorted[j].startSlot)
            && SortedBy(sorted, BySlots())
            && (forall x :: Uses(sorted, lane, x) <==> Uses(laneSpans, lane, x))
            && (forall s :: s in sorted <==> s in laneSpans)
  {
    assert TotalPreorder(BySlots());
    SortSorts(laneSpans, BySlots());
    var sorted := Sort(laneSpans, BySlots());
    PermutationMembers(sorted, laneSpans);
    forall i, j | 0 <= i < j < |sorted| ensures sorted[i].startSlot <= sorted[j].startSlot {
      assert BySlots()(sorted[i], sorted[j]);
    }
    forall x ensures Uses(sorted, lane, x) <==> Uses(laneSpans, lane, x) {
      UsesMember(sorted, lane, x);
      UsesMember(laneSpans, lane, x);
    }
  }

  lemma UsesMember(ss: seq<SlottedSpan>, lane: nat, x: int)
    ensures Uses(ss, lane, x) <==> exists s :: s in ss && s.lane == lane && s.startSlot <= x < s.endSlot
  {
    if s :| s in ss && s.lane == lane && s.startSlot <= x < s.endSlot {
      var i :| 0 <= i < |ss| && ss[i] == s;
    }
  }

  lemma DrawnSnoc(blocks: seq<Block>, b: Block, lane: nat, x: int)
    ensures Drawn(blocks + [b], lane, x) <==>
            Drawn(blocks, lane, x) || (b.lane == lane && b.startSlot <= x < b.endSlot)
  {
    var bs := blocks + [b];
    if Drawn(blocks, lane, x) {
      var i :| 0 <= i < |blocks| && blocks[i].lane == lane && blocks[i].startSlot <= x < blocks[i].endSlot;
      assert bs[i] == blocks[i];
    }
    assert bs[|blocks|] == b;
  }

  lemma UsesSnoc(ss: seq<SlottedSpan>, k: nat, lane: nat, x: int)
    requires k < |ss|
    ensures Uses(ss[..k + 1], lane, x) <==>
            Uses(ss[..k], lane, x) || (ss[k].lane == lane && ss[k].startSlot <= x < ss[k].endSlot)
  {
    if Uses(ss[..k], lane, x) {
      var i :| 0 <= i < k && ss[..k][i].lane == lane && ss[..k][i].startSlot <= x < ss[..k][i].endSlot;
      assert ss[..k + 1][i] == ss[i];
    }
    assert ss[..k + 1][k] == ss[k];
  }

  /** After i spans: the finished blocks and the current one draw exactly those spans. */
  ghost predicate MergedUpTo(blocks: seq<Block>, cur: Block, sorted: seq<SlottedSpan>, i: nat, lane: nat, totalSlots: int)
    requires 0 < i <= |sorted|
  {
    && OneLane(blocks + [cur], lane) && Apart(blocks + [cur]) && Sized(blocks + [cur], totalSlots)
    && cur.startSlot <= sorted[i - 1].startSlot && Joined(blocks + [cur], sorted)
    && (forall x :: Drawn(blocks + [cur], lane, x) <==> Uses(sorted[..i], lane, x))
  }

  lemma MergeFirst(sorted: seq<SlottedSpan>, lane: nat, totalSlots: int)
    requires sorted != [] && LaneSpansOk(sorted, lane, totalSlots)
    ensures MergedUpTo([], Block(lane, sorted[0].startSlot, sorted[0].endSlot, sorted[0].state), sorted, 1, lane, totalSlots)
  {
    var cur := Block(lane, sorted[0].startSlot, sorted[0].endSlot, sorted[0].state);
    assert sorted[0] in sorted;
    forall x ensures Drawn([] + [cur], lane, x) <==> Uses(sorted[..1], lane, x) {
      DrawnSnoc([], cur, lane, x);
      UsesSnoc(sorted, 0, lane, x);
    }
  }

  lemma MergeOverlapping(blocks: seq<Block>, cur: Block, sorted: seq<SlottedSpan>, i: nat, lane: nat, totalSlots: int)
    requires 0 < i < |sorted| && LaneSpansOk(sorted, lane, totalSlots)
    requires MergedUpTo(blocks, cur, sorted, i, lane, totalSlots)
    requires sorted[i - 1].startSlot <= sorted[i].startSlot < cur.endSlot
    ensures MergedUpTo(blocks, Block(lane, cur.startSlot, Max(cur.endSlot, sorted[i].endSlot), sorted[i].state),
                       sorted, i + 1, lane, totalSlots)
  {
    var next := sorted[i];
    var cur' := Block(lane, cur.startSlot, Max(cur.endSlot, next.endSlot), next.state);
    assert next in sorted && (blocks + [cur])[|blocks|] == cur && cur in blocks + [cur];
    forall b | b in blocks + [cur'] ensures b.lane == lane && 0 <= b.startSlot < b.endSlot <= totalSlots {
      assert b == cur' || b in blocks + [cur];
    }
    forall j, k | 0 <= j < k < |blocks| + 1 ensures (blocks + [cur'])[j].endSlot <= (blocks + [cur'])[k].startSlot {
      assert (blocks + [cur])[j] in blocks + [cur] && (blocks + [cur])[k] in blocks + [cur];
      assert (blocks + [cur])[j].endSlot <= (blocks + [cur])[k].startSlot;
    }
    forall x ensures Drawn(blocks + [cur'], lane, x) <==> Uses(sorted[..i + 1], lane, x) {
      DrawnSnoc(blocks, cur, lane, x);
      DrawnSnoc(blocks, cur', lane, x);
      UsesSnoc(sorted, i, lane, x);
    }
    forall b, x | b in blocks + [cur'] && b.startSlot < x < b.endSlot ensures Straddled(sorted, b.lane, x) {
      if b in blocks || x < cur.endSlot {
        assert (if b in blocks then b else cur) in blocks + [cur];
      } else {
        assert next.startSlot < x < next.endSlot;
      }
    }
  }

  lemma MergeSeparate(blocks: seq<Block>, cur: Block, sorted: seq<SlottedSpan>, i: nat, lane: nat, totalSlots: int)
    requires 0 < i < |sorted| && LaneSpansOk(sorted, lane, totalSlots)
    requires MergedUpTo(blocks, cur, sorted, i, lane, totalSlots)
    requires cur.endSlot <= sorted[i].startSlot
    ensures MergedUpTo(blocks + [cur], Block(lane, sorted[i].startSlot, sorted[i].endSlot, sorted[i].state),
                       sorted, i + 1, lane, totalSlots)
  {
    var next := sorted[i];
    var done, cur' := blocks + [cur], Block(lane, next.startSlot, next.endSlot, next.state);
    assert next in sorted && done[|blocks|] == cur && cur in done;
    forall j | 0 <= j < |done| ensures done[j].endSlot <= cur'.startSlot {
      assert done[j] in done;
      if j < |blocks| {
        assert done[j].endSlot <= done[|blocks|].startSlot;
      }
    }
    forall x ensures Drawn(done + [cur'], lane, x) <==> Uses(sorted[..i + 1], lane, x) {
      DrawnSnoc(done, cur', lane, x);
      UsesSnoc(sorted, i, lane, x);
    }
    forall b, x | b in done + [cur'] && b.startSlot < x < b.endSlot ensures Straddled(sorted, b.lane, x) {
      assert b == cur' || b in done;
    }
  }

  /** After i spans: none is cut, and the current block has the state of the last one, which it holds. */
  ghost predicate WholeUpTo(blocks: seq<Block>, cur: Block, sorted: seq<SlottedSpan>, i: nat)
    requires 0 < i <= |sorted|
  {
    && Inside(sorted[i - 1], cur) && cur.state == sorted[i - 1].state
    && (forall b :: b in blocks ==> Shown(b, sorted))
    && (forall j :: 0 <= j < i ==> Placed(sorted[j], blocks + [cur]))
  }

  /** Once no further span starts inside it, the current block shows the last of its spans. */
  lemma CurrentShown(blocks: seq<Block>, cur: Block, sorted: seq<SlottedSpan>, i: nat)
    requires 0 < i <= |sorted| && SortedBy(sorted, BySlots()) && WholeUpTo(blocks, cur, sorted, i)
    requires forall s :: s in sorted ==> s.startSlot < s.endSlot
    requires i < |sorted| ==> cur.endSlot <= sorted[i].startSlot
    ensures Shown(cur, sorted)
  {
    var s := sorted[i - 1];
    forall u | u in sorted ensures Inside(u, cur) ==> BySlots()(u, s) {
      var j :| 0 <= j < |sorted| && sorted[j] == u;
      if j > i { assert BySlots()(sorted[i], sorted[j]); }
      if j < i - 1 { assert BySlots()(sorted[j], sorted[i - 1]); }
    }
    forall u | u in sorted[i..] ensures !PlaceOf(s)(u) {
      var j :| i <= j < |sorted| && sorted[j] == u;
      if j > i { assert BySlots()(sorted[i], sorted[j]); }
    }
    LastOfPlace(sorted, i);
    assert ShownBy(s, cur, sorted);
  }

  lemma LastOfPlace(sorted: seq<SlottedSpan>, i: nat)
    requires 0 < i <= |sorted| && forall u :: u in sorted[i..] ==> !PlaceOf(sorted[i - 1])(u)
    ensures LastInPlace(sorted[i - 1], sorted)
  {
    var s := sorted[i - 1];
    var p := PlaceOf(s);
    assert sorted == sorted[..i - 1] + [s] + sorted[i..];
    FilterAppend(sorted[..i - 1] + [s], sorted[i..], p);
    FilterAppend(sorted[..i - 1], [s], p);
    FilterNone(sorted[i..], p);
    assert Filter([s], p) == [s] + Filter([], p);
    LastInPlaceExactly(s, sorted);
  }

  lemma PlacedWider(s: SlottedSpan, blocks: seq<Block>, cur: Block, more: seq<Block>, cur': Block)
    requires Placed(s, blocks + [cur]) && forall b :: b in blocks ==> b in more
    requires cur in more || (Inside(s, cur) ==> Inside(s, cur'))
    ensures Placed(s, more + [cur'])
  {
    var b :| b in blocks + [cur] && Inside(s, b);
    assert cur' in more + [cur'];
    if b in blocks || cur in more {
      assert b in more + [cur'];
    }
  }

  lemma WholeFirst(sorted: seq<SlottedSpan>, cur: Block)
    requires sorted != []
    requires cur == Block(sorted[0].lane, sorted[0].startSlot, sorted[0].endSlot, sorted[0].state)
    ensures WholeUpTo([], cur, sorted, 1)
  {
    assert cur in [] + [cur] && Inside(sorted[0], cur);
  }

  lemma WholeOverlapping(blocks: seq<Block>, cur: Block, sorted: seq<SlottedSpan>, i: nat, cur': Block)
    requires 0 < i < |sorted| && WholeUpTo(blocks, cur, sorted, i) && sorted[i].lane == cur.lane
    requires cur.startSlot <= sorted[i].startSlot
    requires cur' == Block(cur.lane, cur.startSlot, Max(cur.endSlot, sorted[i].endSlot), sorted[i].state)
    ensures WholeUpTo(blocks, cur', sorted, i + 1)
  {
    forall j | 0 <= j < i + 1 ensures Placed(sorted[j], blocks + [cur']) {
      if j < i {
        PlacedWider(sorted[j], blocks, cur, blocks, cur');
      } else {
        assert cur' in blocks + [cur'] && Inside(sorted[i], cur');
      }
    }
  }

  lemma WholeSeparate(blocks: seq<Block>, cur: Block, sorted: seq<SlottedSpan>, i: nat, cur': Block)
    requires 0 < i < |sorted| && WholeUpTo(blocks, cur, sorted, i) && Shown(cur, sorted)
    requires cur' == Block(sorted[i].lane, sorted[i].startSlot, sorted[i].endSlot, sorted[i].state)
    ensures WholeUpTo(blocks + [cur], cur', sorted, i + 1)
  {
    var done := blocks + [cur];
    assert cur in done;
    forall j | 0 <= j < i + 1 ensures Placed(sorted[j], done + [cur']) {
      if j < i {
        PlacedWider(sorted[j], blocks, cur, done, cur');
      } else {
        assert cur' in done + [cur'] && Inside(sorted[i], cur');
      }
    }
  }

  lemma LastInSorted(s: SlottedSpan, ss: seq<SlottedSpan>)
    ensures LastInPlace(s, Sort(ss, BySlots())) <==> LastInPlace(s, ss)
  {
    SortKeepsFilter(ss, BySlots(), PlaceOf(s));
    LastInPlaceExactly(s, Sort(ss, BySlots()));
    LastInPlaceExactly(s, ss);
  }

  lemma ShownAmong(s: SlottedSpan, b: Block, sorted: seq<SlottedSpan>, ss: seq<SlottedSpan>)
    requires ShownBy(s, b, sorted) && LastInPlace(s, ss) && forall u :: u in sorted <==> u in ss
    ensures Shown(b, ss)
  {
    assert ShownBy(s, b, ss);
  }

  /** What is whole among the sorted spans is whole among the given ones. */
  lemma {:induction false} WholeUnsorted(blocks: seq<Block>, sorted: seq<SlottedSpan>, ss: seq<SlottedSpan>)
    requires Whole(blocks, sorted) && sorted == Sort(ss, BySlots()) && forall s :: s in sorted <==> s in ss
    ensures Whole(blocks, ss)
  {
    forall b | b in blocks ensures Shown(b, ss) {
      assert Shown(b, sorted);
      var s :| ShownBy(s, b, sorted);
      LastInSorted(s, ss);
      ShownAmong(s, b, sorted, ss);
    }
  }

  lemma {:induction false} PlaceInLane(ss: seq<SlottedSpan>, lane: nat, p: SlottedSpan -> bool)
    requires forall u :: p(u) ==> u.lane == lane
    ensures Filter(LaneSpans(ss, lane), p) == Filter(ss, p)
  {
    if ss != [] {
      var n := |ss| - 1;
      PlaceInLane(ss[..n], lane, p);
      assert ss == ss[..n] + [ss[n]];
      FilterAppend(ss[..n], [ss[n]], p);
      FilterAppend(LaneSpans(ss[..n], lane), [ss[n]], p);
      assert Filter([ss[n]], p) == (if p(ss[n]) then [ss[n]] else []) + Filter([], p);
    }
  }

  lemma {:induction false} LastInLane(s: SlottedSpan, ss: seq<SlottedSpan>, lane: nat)
    requires LastInPlace(s, LaneSpans(ss, lane)) && s.lane == lane
    ensures LastInPlace(s, ss)
  {
    PlaceInLane(ss, lane, PlaceOf(s));
    LastInPlaceExactly(s, LaneSpans(ss, lane));
    LastInPlaceExactly(s, ss);
  }

  lemma {:induction false} ShownInLane(s: SlottedSpan, b: Block, ss: seq<SlottedSpan>, lane: nat)
    requires ShownBy(s, b, LaneSpans(ss, lane)) && b.lane == lane
    ensures Shown(b, ss)
  {
    LastInLane(s, ss, lane);
    LaneSpansMembers(ss, lane);
    forall u | u in ss && Inside(u, b) ensures BySlots()(u, s) {
      assert u in LaneSpans(ss, lane);
    }
    assert ShownBy(s, b, ss);
  }

  lemma {:induction false} WholeLane(blocks: seq<Block>, ss: seq<SlottedSpan>, lane: nat, b: Block)
    requires Whole(blocks, LaneSpans(ss, lane)) && OneLane(blocks, lane) && b in blocks
    ensures Shown(b, ss)
  {
    assert Shown(b, LaneSpans(ss, lane));
    var s :| ShownBy(s, b, LaneSpans(ss, lane));
    ShownInLane(s, b, ss, lane);
  }

  /**
   The blocks of a lane: apart, inside the chart, drawn exactly where a span is, joined only where a span
   reaches across, whole around every span, and each with the state of the last one it holds.
   */
  ghost predicate IsMerged(blocks: seq<Block>, lane: nat, laneSpans: seq<SlottedSpan>, totalSlots: int)
  {
    && OneLane(blocks, lane) && Apart(blocks) && Sized(blocks, totalSlots)
    && (forall x :: Drawn(blocks, lane, x) <==> Uses(laneSpans, lane, x))
    && Joined(blocks, laneSpans) && Whole(blocks, laneSpans)
  }

  /** Merges the slot ranges of one lane that strictly overlap. */
  method MergeLane(lane: nat, laneSpans: seq<SlottedSpan>, ghost totalSlots: int) returns (blocks: seq<Block>)
    requires laneSpans != [] && LaneSpansOk(laneSpans, lane, totalSlots)
    ensures IsMerged(blocks, lane, laneSpans, totalSlots)
  {
    SortedLane(laneSpans, lane, totalSlots);
    var sorted := Sort(laneSpans, BySlots());
    blocks := [];
    var cur := Block(lane, sorted[0].startSlot, sorted[0].endSlot, sorted[0].state);
    MergeFirst(sorted, lane, totalSlots);
    WholeFirst(sorted, cur);
    for i := 1 to |sorted|
      invariant MergedUpTo(blocks, cur, sorted, i, lane, totalSlots)
      invariant cur.lane == lane && WholeUpTo(blocks, cur, sorted, i)
    {
      var next := sorted[i];
      if next.startSlot < cur.endSlot {
        MergeOverlapping(blocks, cur, sorted, i, lane, totalSlots);
        WholeOverlapping(blocks, cur, sorted, i, Block(lane, cur.startSlot, Max(cur.endSlot, next.endSlot), next.state));
        cur := Block(lane, cur.startSlot, Max(cur.endSlot, next.endSlot), next.state);
      } else {
        MergeSeparate(blocks, cur, sorted, i, lane, totalSlots);
        CurrentShown(blocks, cur, sorted, i);
        WholeSeparate(blocks, cur, sorted, i, Block(lane, next.startSlot, next.endSlot, next.state));
        blocks := blocks + [cur];
        cur := Block(lane, next.startSlot, next.endSlot, next.state);
      }
    }
    assert sorted[..|sorted|] == sorted;
    CurrentShown(blocks, cur, sorted, |sorted|);
    blocks := blocks + [cur];
    WholeUnsorted(blocks, sorted, laneSpans);
    forall b, x | b in blocks && b.startSlot < x < b.endSlot ensures Straddled(laneSpans, b.lane, x) {
      assert Straddled(sorted, b.lane, x);
    }
  }

  /** The slotted spans of one lane, in their order. */
  function LaneSpans(ss: seq<SlottedSpan>, lane: nat): seq<SlottedSpan>
  {
    if ss == [] then []
    else
      var rest := LaneSpans(ss[..|ss| - 1], lane);
      var s := ss[|ss| - 1];
      if s.lane == lane then rest + [s] else rest
  }

  lemma {:induction false} LaneSpansMembers(ss: seq<SlottedSpan>, lane: nat)
    ensures forall s :: s in LaneSpans(ss, lane) <==> s in ss && s.lane == lane
  {
    if ss != [] {
      LaneSpansMembers(ss[..|ss| - 1], lane);
      assert ss == ss[..|ss| - 1] + [ss[|ss| - 1]];
    }
  }

  /** spansByLane groups the spans by lane; lanes lists its keys in order of insertion. */
  ghost predicate Grouped(ss: seq<SlottedSpan>, lanes: seq<nat>, spansByLane: map<nat, seq<SlottedSpan>>)
  {
    && (forall l: nat :: l in spansByLane <==> LaneSpans(ss, l) != [])
    && (forall l: nat :: l in spansByLane ==> spansByLane[l] == LaneSpans(ss, l))
    && Distinct(lanes)
    && (forall l: nat :: l in lanes <==> l in spansByLane)
  }

  /** Lane l comes up at a position up to which lane m has not. */
  ghost predicate UsedBefore(ss: seq<SlottedSpan>, l: nat, m: nat)
  {
    exists p :: 0 <= p < |ss| && ss[p].lane == l && forall q :: 0 <= q <= p ==> ss[q].lane != m
  }

  ghost predicate InOrderOfUse(ss: seq<SlottedSpan>, lanes: seq<nat>)
  {
    forall i, j :: 0 <= i < j < |lanes| ==> UsedBefore(ss, lanes[i], lanes[j])
  }

  lemma UsedBeforeLonger(ss: seq<SlottedSpan>, s: SlottedSpan, l: nat, m: nat)
    requires UsedBefore(ss, l, m)
    ensures UsedBefore(ss + [s], l, m)
  {
    var p :| 0 <= p < |ss| && ss[p].lane == l && forall q :: 0 <= q <= p ==> ss[q].lane != m;
    assert (ss + [s])[p].lane == l;
  }

  lemma {:induction false} NewLaneIsLast(ss: seq<SlottedSpan>, s: SlottedSpan, l: nat)
    requires LaneSpans(ss, l) != [] && LaneSpans(ss, s.lane) == []
    ensures UsedBefore(ss + [s], l, s.lane)
  {
    LaneSpansMembers(ss, l);
    LaneSpansMembers(ss, s.lane);
    assert LaneSpans(ss, l)[0] in LaneSpans(ss, l);
    var p :| 0 <= p < |ss| && ss[p] == LaneSpans(ss, l)[0];
    forall q | 0 <= q <= p ensures (ss + [s])[q].lane != s.lane {
      assert ss[q] in ss;
    }
    assert (ss + [s])[p].lane == l;
  }

  lemma {:induction false} OrderOfUseStep(ss: seq<SlottedSpan>, s: SlottedSpan, lanes: seq<nat>)
    requires InOrderOfUse(ss, lanes) && forall l :: l in lanes ==> LaneSpans(ss, l) != []
    ensures InOrderOfUse(ss + [s], lanes)
    ensures LaneSpans(ss, s.lane) == [] ==> InOrderOfUse(ss + [s], lanes + [s.lane])
  {
    forall i, j | 0 <= i < j < |lanes| ensures UsedBefore(ss + [s], lanes[i], lanes[j]) {
      UsedBeforeLonger(ss, s, lanes[i], lanes[j]);
    }
    if LaneSpans(ss, s.lane) == [] {
      forall i | 0 <= i < |lanes| ensures UsedBefore(ss + [s], lanes[i], s.lane) {
        assert lanes[i] in lanes;
        NewLaneIsLast(ss, s, lanes[i]);
      }
    }
  }

  lemma GroupedStep(ss: seq<SlottedSpan>, s: SlottedSpan, lanes: seq<nat>, spansByLane: map<nat, seq<SlottedSpan>>)
    requires Grouped(ss, lanes, spansByLane)
    ensures if s.lane in spansByLane
            then Grouped(ss + [s], lanes, spansByLane[s.lane := spansByLane[s.lane] + [s]])
            else Grouped(ss + [s], lanes + [s.lane], spansByLane[s.lane := [] + [s]])
  {
    assert (ss + [s])[..|ss|] == ss;
    forall l: nat ensures LaneSpans(ss + [s], l) == if s.lane == l then LaneSpans(ss, l) + [s] else LaneSpans(ss, l) {
    }
  }

  method GroupByLane(ss: seq<SlottedSpan>) returns (lanes: seq<nat>, spansByLane: map<nat, seq<SlottedSpan>>)
    ensures Grouped(ss, lanes, spansByLane) && InOrderOfUse(ss, lanes)
  {
    lanes, spansByLane := [], map[];
    for k := 0 to |ss|
      invariant Grouped(ss[..k], lanes, spansByLane) && InOrderOfUse(ss[..k], lanes)
    {
      var s := ss[k];
      assert ss[..k + 1] == ss[..k] + [s];
      OrderOfUseStep(ss[..k], s, lanes);
      GroupedStep(ss[..k], s, lanes, spansByLane);
      if s.lane !in spansByLane {
        lanes := lanes + [s.lane];
        spansByLane := spansByLane[s.lane := []];
      }
      spansByLane := spansByLane[s.lane := spansByLane[s.lane] + [s]];
    }
    assert ss[..|ss|] == ss;
  }

  ghost predicate SlotsOk(ss: seq<SlottedSpan>, totalSlots: int)
  {
    forall s :: s in ss ==> 0 <= s.startSlot < s.endSlot <= totalSlots
  }

  lemma {:induction false} LaneSpansFacts(ss: seq<SlottedSpan>, lane: nat, totalSlots: int)
    requires SlotsOk(ss, totalSlots)
    ensures LaneSpansOk(LaneSpans(ss, lane), lane, totalSlots)
    ensures forall x :: Uses(LaneSpans(ss, lane), lane, x) <==> Uses(ss, lane, x)
  {
    LaneSpansMembers(ss, lane);
    forall x ensures Uses(LaneSpans(ss, lane), lane, x) <==> Uses(ss, lane, x) {
      UsesMember(LaneSpans(ss, lane), lane, x);
      UsesMember(ss, lane, x);
    }
  }

  lemma DrawnAppend(a: seq<Block>, b: seq<Block>, lane: nat, x: int)
    ensures Drawn(a + b, lane, x) <==> Drawn(a, lane, x) || Drawn(b, lane, x)
  {
    var ab := a + b;
    if Drawn(a, lane, x) {
      var i :| 0 <= i < |a| && a[i].lane == lane && a[i].startSlot <= x < a[i].endSlot;
      assert ab[i] == a[i];
    }
    if Drawn(b, lane, x) {
      var i :| 0 <= i < |b| && b[i].lane == lane && b[i].startSlot <= x < b[i].endSlot;
      assert ab[|a| + i] == b[i];
    }
  }

  lemma DrawnOutside(blocks: seq<Block>, lane: nat, other: nat, x: int)
    requires OneLane(blocks, lane) && other != lane
    ensures !Drawn(blocks, other, x)
  {
  }

  lemma {:induction false} JoinedAppend(a: seq<Block>, b: seq<Block>, lane: nat, ss: seq<SlottedSpan>)
    requires Joined(a, ss) && Joined(b, LaneSpans(ss, lane))
    ensures Joined(a + b, ss)
  {
    LaneSpansMembers(ss, lane);
    forall c, x | c in a + b && c.startSlot < x < c.endSlot ensures Straddled(ss, c.lane, x) {
      if c !in a {
        assert Straddled(LaneSpans(ss, lane), c.lane, x);
      }
    }
  }

  lemma {:induction false} PlacedAppend(blocks: seq<Block>, merged: seq<Block>, ss: seq<SlottedSpan>, lane: nat)
    requires Whole(merged, LaneSpans(ss, lane))
    ensures forall s :: s in ss && (s.lane == lane || Placed(s, blocks)) ==> Placed(s, blocks + merged)
  {
    LaneSpansMembers(ss, lane);
    forall s | s in ss && (s.lane == lane || Placed(s, blocks)) ensures Placed(s, blocks + merged) {
      if s.lane == lane {
        assert Placed(s, merged);
      }
      assert forall b :: b in blocks + merged <==> b in blocks || b in merged;
    }
  }

  /** The blocks of the first lanes: their spans are drawn, joined and whole, and nothing else is drawn. */
  ghost predicate BuiltUpTo(blocks: seq<Block>, ss: seq<SlottedSpan>, done: seq<nat>, totalSlots: int)
  {
    && Apart(blocks) && Sized(blocks, totalSlots) && Joined(blocks, ss)
    && (forall b :: b in blocks ==> b.lane in done && Shown(b, ss))
    && (forall s :: s in ss && s.lane in done ==> Placed(s, blocks))
    && (forall l: nat, x :: Drawn(blocks, l, x) <==> l in done && Uses(ss, l, x))
  }

  lemma ApartAppend(blocks: seq<Block>, merged: seq<Block>, done: seq<nat>, lane: nat, totalSlots: int)
    requires Apart(blocks) && Sized(blocks, totalSlots) && Apart(merged) && Sized(merged, totalSlots)
    requires (forall b :: b in blocks ==> b.lane in done) && OneLane(merged, lane) && lane !in done
    ensures Apart(blocks + merged) && Sized(blocks + merged, totalSlots)
  {
    var all := blocks + merged;
    forall i, j | 0 <= i < j < |all| ensures all[i].lane == all[j].lane ==> all[i].endSlot <= all[j].startSlot {
      if i < |blocks| <= j {
        assert blocks[i] in blocks && merged[j - |blocks|] in merged;
      }
    }
  }

  lemma {:induction false} BuildLane(blocks: seq<Block>, merged: seq<Block>, ss: seq<SlottedSpan>,
                                   done: seq<nat>, lane: nat, totalSlots: int)
    requires BuiltUpTo(blocks, ss, done, totalSlots) && lane !in done && SlotsOk(ss, totalSlots)
    requires IsMerged(merged, lane, LaneSpans(ss, lane), totalSlots)
    ensures BuiltUpTo(blocks + merged, ss, done + [lane], totalSlots)
  {
    var all := blocks + merged;
    ApartAppend(blocks, merged, done, lane, totalSlots);
    JoinedAppend(blocks, merged, lane, ss);
    PlacedAppend(blocks, merged, ss, lane);
    LaneSpansFacts(ss, lane, totalSlots);
    forall b | b in all ensures b.lane in done + [lane] && Shown(b, ss) {
      if b in merged { WholeLane(merged, ss, lane, b); }
    }
    forall l: nat, x ensures Drawn(all, l, x) <==> l in done + [lane] && Uses(ss, l, x) {
      DrawnAppend(blocks, merged, l, x);
      if l != lane { DrawnOutside(merged, lane, l, x); }
    }
  }

  lemma BuiltNone(ss: seq<SlottedSpan>, totalSlots: int)
    ensures BuiltUpTo([], ss, [], totalSlots)
  {
  }

  lemma {:induction false} LaneReady(ss: seq<SlottedSpan>, lanes: seq<nat>, spansByLane: map<nat, seq<SlottedSpan>>, k: nat,
                  totalSlots: int)
    requires Grouped(ss, lanes, spansByLane) && SlotsOk(ss, totalSlots) && k < |lanes|
    ensures lanes[k] !in lanes[..k] && lanes[k] in spansByLane
    ensures var laneSpans := spansByLane[lanes[k]];
            laneSpans == LaneSpans(ss, lanes[k]) && laneSpans != [] && LaneSpansOk(laneSpans, lanes[k], totalSlots)
  {
    assert lanes[k] in lanes;
    LaneSpansFacts(ss, lanes[k], totalSlots);
  }

  /** The blocks of all lanes: apart, drawn exactly where a span is, joined only across spans, and whole. */
  ghost predicate IsBuilt(blocks: seq<Block>, ss: seq<SlottedSpan>, totalSlots: int)
  {
    && Apart(blocks) && Sized(blocks, totalSlots) && Joined(blocks, ss) && Whole(blocks, ss)
    && (forall l: nat, x :: Drawn(blocks, l, x) <==> Uses(ss, l, x))
    && LanesInTurn(blocks, ss)
  }

  /** Blocks of different lanes stand in the order in which the spans first use the lanes. */
  ghost predicate LanesInTurn(blocks: seq<Block>, ss: seq<SlottedSpan>)
  {
    forall i, j :: 0 <= i < j < |blocks| && blocks[i].lane != blocks[j].lane ==>
      UsedBefore(ss, blocks[i].lane, blocks[j].lane)
  }

  lemma TurnAppend(blocks: seq<Block>, merged: seq<Block>, ss: seq<SlottedSpan>, lanes: seq<nat>, k: nat)
    requires InOrderOfUse(ss, lanes) && k < |lanes| && LanesInTurn(blocks, ss) && OneLane(merged, lanes[k])
    requires forall b :: b in blocks ==> b.lane in lanes[..k]
    ensures LanesInTurn(blocks + merged, ss)
  {
    var all := blocks + merged;
    assert forall m :: |blocks| <= m < |all| ==> all[m] in merged;
    forall i, j | 0 <= i < j < |all| && all[i].lane != all[j].lane ensures UsedBefore(ss, all[i].lane, all[j].lane) {
      if i < |blocks| <= j {
        assert blocks[i] in blocks;
        var p :| 0 <= p < k && lanes[..k][p] == blocks[i].lane;
        assert UsedBefore(ss, lanes[p], lanes[k]);
      }
    }
  }

  lemma BuiltAll(blocks: seq<Block>, ss: seq<SlottedSpan>, lanes: seq<nat>, spansByLane: map<nat, seq<SlottedSpan>>,
                 totalSlots: int)
    requires Grouped(ss, lanes, spansByLane) && BuiltUpTo(blocks, ss, lanes, totalSlots) && LanesInTurn(blocks, ss)
    ensures IsBuilt(blocks, ss, totalSlots)
  {
    forall s | s in ss ensures s.lane in lanes {
      LaneSpansMembers(ss, s.lane);
    }
    forall l: nat, x ensures Drawn(blocks, l, x) <==> Uses(ss, l, x) {
      UsesMember(ss, l, x);
    }
  }

  ghost predicate BuiltLanes(blocks: seq<Block>, ss: seq<SlottedSpan>, lanes: seq<nat>, k: nat, totalSlots: int)
  {
    k <= |lanes| && BuiltUpTo(blocks, ss, lanes[..k], totalSlots) && LanesInTurn(blocks, ss)
  }

  lemma BuildNext(blocks: seq<Block>, merged: seq<Block>, ss: seq<SlottedSpan>, lanes: seq<nat>,
                  spansByLane: map<nat, seq<SlottedSpan>>, k: nat, totalSlots: int)
    requires Grouped(ss, lanes, spansByLane) && InOrderOfUse(ss, lanes) && SlotsOk(ss, totalSlots)
    requires k < |lanes| && BuiltLanes(blocks, ss, lanes, k, totalSlots)
    requires IsMerged(merged, lanes[k], LaneSpans(ss, lanes[k]), totalSlots)
    ensures BuiltLanes(blocks + merged, ss, lanes, k + 1, totalSlots)
  {
    LaneReady(ss, lanes, spansByLane, k, totalSlots);
    assert lanes[..k + 1] == lanes[..k] + [lanes[k]];
    BuildLane(blocks, merged, ss, lanes[..k], lanes[k], totalSlots);
    TurnAppend(blocks, merged, ss, lanes, k);
  }

  /** Over all lanes: the blocks cover exactly the slots of each lane's spans, join them and cut none. */
  method BuildBlocks(ss: seq<SlottedSpan>, ghost totalSlots: int) returns (blocks: seq<Block>)
    requires SlotsOk(ss, totalSlots)
    ensures IsBuilt(blocks, ss, totalSlots)
  {
    var lanes, spansByLane := GroupByLane(ss);
    blocks := [];
    BuiltNone(ss, totalSlots);
    assert lanes[..0] == [];
    for k := 0 to |lanes|
      invariant BuiltLanes(blocks, ss, lanes, k, totalSlots)
    {
      var lane := lanes[k];
      LaneReady(ss, lanes, spansByLane, k, totalSlots);
      var merged := MergeLane(lane, spansByLane[lane], totalSlots);
      BuildNext(blocks, merged, ss, lanes, spansByLane, k, totalSlots);
      blocks := blocks + merged;
    }
    assert lanes[..|lanes|] == lanes;
    BuiltAll(blocks, ss, lanes, spansByLane, totalSlots);
  }
}
