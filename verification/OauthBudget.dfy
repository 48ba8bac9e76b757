/**
 Budget pacing for seat-based accounts: where the current five-hour window opened, how much work past
 windows held, and how much of that the current one has used. Times are integer milliseconds; ratios
 and weights are real numbers.
 */
module OauthBudget {
  import opened Options
  import opened Seqs
  import opened Strings
  import ModelRouter

  const WINDOW_MS: int := 5 * 60 * 60 * 1000
  const MIN_SAMPLES: nat := 3
  const GOOD_SAMPLES: nat := 5

  // ---------------------------------------------------------------- the open window

  /** A start counts when it is not in the future and not before a reset that has happened. */
  predicate Counts(t: int, now: int, lastResetsAt: Option<int>)
  {
    t <= now && (lastResetsAt.Some? && lastResetsAt.value <= now ==> t >= lastResetsAt.value)
  }

  function Considered(starts: seq<int>, now: int, lastResetsAt: Option<int>): seq<int>
  {
    if starts == [] then []
    else
      var before := Considered(starts[..|starts| - 1], now, lastResetsAt);
      var t := starts[|starts| - 1];
      if Counts(t, now, lastResetsAt) then before + [t] else before
  }

  /**
   The windows of a history of starts, stated without walking it: every boundary is a start, boundaries
   lie at least a window apart, and every start lies within a window after some boundary.
   */
  ghost predicate Sessionizes(bs: seq<int>, starts: set<int>)
  {
    && (forall b :: b in bs ==> b in starts)
    && (forall i, j :: 0 <= i < j < |bs| ==> bs[i] + 5 * 60 * 60 * 1000 <= bs[j])
    && (forall t :: t in starts ==> InSession(bs, t))
  }

  ghost predicate InSession(bs: seq<int>, t: int)
  {
    exists i :: 0 <= i < |bs| && bs[i] <= t < bs[i] + 5 * 60 * 60 * 1000
  }

  lemma Spaced(bs: seq<int>, starts: set<int>, i: nat, j: nat)
    requires Sessionizes(bs, starts) && i < |bs| && j < |bs|
    ensures i >= j || bs[i] + WINDOW_MS <= bs[j]
  {
  }

  /** There is only one way to cut a history into windows. */
  lemma {:induction false} SessionizationAgrees(a: seq<int>, b: seq<int>, starts: set<int>, k: nat)
    requires Sessionizes(a, starts) && Sessionizes(b, starts) && k < |a|
    requires forall i :: 0 <= i < k && i < |b| ==> a[i] == b[i]
    ensures k < |b| && b[k] <= a[k]
  {
    assert a[k] in a && InSession(b, a[k]);
    var i :| 0 <= i < |b| && b[i] <= a[k] < b[i] + WINDOW_MS;
    if i < |a| { Spaced(a, starts, i, k); }
    if k < |b| { Spaced(b, starts, k, i); }
  }

  lemma {:induction false} SessionizationPrefix(a: seq<int>, b: seq<int>, starts: set<int>, k: nat)
    requires Sessionizes(a, starts) && Sessionizes(b, starts) && k <= |a|
    ensures k <= |b| && forall i :: 0 <= i < k ==> a[i] == b[i]
  {
    if k > 0 {
      SessionizationPrefix(a, b, starts, k - 1);
      SessionizationAgrees(a, b, starts, k - 1);
      SessionizationAgrees(b, a, starts, k - 1);
    }
  }

  lemma SessionizationUnique(a: seq<int>, b: seq<int>, starts: set<int>)
    requires Sessionizes(a, starts) && Sessionizes(b, starts)
    ensures a == b
  {
    SessionizationPrefix(a, b, starts, |a|);
    SessionizationPrefix(b, a, starts, |b|);
  }

  function SetOf(s: seq<int>): set<int>
  {
    set t | t in s
  }

  /** The result is the last boundary of the one sessionization, or now when no start counts. */
  ghost predicate LastBoundary(windowStart: int, starts: set<int>, now: int)
  {
    if starts == {} then windowStart == now
    else exists bs :: Sessionizes(bs, starts) && bs != [] && bs[|bs| - 1] == windowStart
  }

  lemma NextStart(bs: seq<int>, seen: set<int>, t: int)
    requires bs != [] && Sessionizes(bs, seen) && forall u :: u in seen ==> u <= t
    ensures Sessionizes(if t >= bs[|bs| - 1] + WINDOW_MS then bs + [t] else bs, seen + {t})
  {
    var n := |bs| - 1;
    assert bs[n] in bs;
    if t >= bs[n] + WINDOW_MS {
      var bs' := bs + [t];
      forall u | u in seen ensures InSession(bs', u) {
        assert InSession(bs, u);
        var i :| 0 <= i < |bs| && bs[i] <= u < bs[i] + WINDOW_MS;
        assert bs'[i] == bs[i];
      }
      assert bs'[n + 1] == t;
      forall i | 0 <= i < |bs| ensures bs'[i] + WINDOW_MS <= t {
        Spaced(bs, seen, i, n);
      }
    } else {
      assert bs[n] <= t < bs[n] + WINDOW_MS;
      assert InSession(bs, t);
    }
  }

  lemma {:induction false} SortedStarts(starts: seq<int>)
    ensures var sorted := Sort(starts, Ascending());
            SetOf(sorted) == SetOf(starts) && forall i, j :: 0 <= i < j < |sorted| ==> sorted[i] <= sorted[j]
  {
    SortAscends(starts);
    SortSorts(starts, Ascending());
    PermutationMembers(Sort(starts, Ascending()), starts);
  }

  /** After k starts of the walk: bs are the boundaries among them, windowStart the last. */
  ghost predicate Walked(bs: seq<int>, starts: seq<int>, k: nat, windowStart: int)
  {
    0 < k <= |starts| && bs != [] && bs[|bs| - 1] == windowStart && Sessionizes(bs, SetOf(starts[..k]))
  }

  lemma FirstStart(starts: seq<int>)
    requires starts != []
    ensures Walked([starts[0]], starts, 1, starts[0])
  {
    assert starts[..1] == [starts[0]];
    assert InSession([starts[0]], starts[0]) by { assert [starts[0]][0] == starts[0]; }
  }

  /** The next start of the walk opens a window or falls into the last one; the first one is met twice. */
  lemma LaterStart(bs: seq<int>, starts: seq<int>, k: nat, windowStart: int) returns (bs': seq<int>)
    requires k < |starts| && Walked(bs, starts, if k == 0 then 1 else k, windowStart)
    requires k == 0 ==> windowStart == starts[0]
    requires forall i, j :: 0 <= i < j < |starts| ==> starts[i] <= starts[j]
    ensures Walked(bs', starts, k + 1, if starts[k] >= windowStart + WINDOW_MS then starts[k] else windowStart)
  {
    bs' := if starts[k] >= windowStart + WINDOW_MS then bs + [starts[k]] else bs;
    if k > 0 {
      assert starts[..k + 1] == starts[..k] + [starts[k]];
      assert SetOf(starts[..k + 1]) == SetOf(starts[..k]) + {starts[k]};
      NextStart(bs, SetOf(starts[..k]), starts[k]);
    }
  }

  lemma WalkedAll(bs: seq<int>, starts: seq<int>, windowStart: int, considered: set<int>, now: int)
    requires Walked(bs, starts, |starts|, windowStart) && SetOf(starts) == considered
    ensures LastBoundary(windowStart, considered, now)
  {
    assert starts[..|starts|] == starts;
    assert starts[0] in considered;
  }

  /** A reset that has happened cuts off what lies before it; one still to come, and none at all, cut off nothing. */
  ghost predicate SinceReset(t: int, now: int, lastResetsAt: Option<int>)
  {
    match lastResetsAt
    case None => true
    case Some(reset) => now < reset || reset <= t
  }

  lemma {:induction false} ConsideredExactly(starts: seq<int>, now: int, lastResetsAt: Option<int>)
    ensures SetOf(Considered(starts, now, lastResetsAt)) ==
            set t | t in starts && t <= now && SinceReset(t, now, lastResetsAt)
  {
    if starts != [] {
      var n := |starts| - 1;
      ConsideredExactly(starts[..n], now, lastResetsAt);
      assert starts == starts[..n] + [starts[n]];
      var before := Considered(starts[..n], now, lastResetsAt);
      assert SetOf(before + [starts[n]]) == SetOf(before) + {starts[n]};
    }
  }

  method InferWindowStart(now: int, lastResetsAt: Option<int>, workerStarts: seq<int>) returns (windowStart: int)
    ensures LastBoundary(windowStart, SetOf(Considered(workerStarts, now, lastResetsAt)), now)
    ensures SetOf(Considered(workerStarts, now, lastResetsAt)) ==
            set t | t in workerStarts && t <= now && SinceReset(t, now, lastResetsAt)
  {
    ConsideredExactly(workerStarts, now, lastResetsAt);
    var starts := Sort(Considered(workerStarts, now, lastResetsAt), Ascending());
    SortedStarts(Considered(workerStarts, now, lastResetsAt));
    if |starts| == 0 {
      return now;
    }
    windowStart := starts[0];
    ghost var bs := [starts[0]];
    FirstStart(starts);
    for k := 0 to |starts|
      invariant Walked(bs, starts, if k == 0 then 1 else k, windowStart)
      invariant k == 0 ==> windowStart == starts[0]
    {
      var start := starts[k];
      bs := LaterStart(bs, starts, k, windowStart);
      if start >= windowStart + WINDOW_MS {
        windowStart := start;
      }
    }
    WalkedAll(bs, starts, windowStart, SetOf(Considered(workerStarts, now, lastResetsAt)), now);
  }

  lemma LastBoundaryUnique(a: int, b: int, starts: set<int>, now: int)
    requires LastBoundary(a, starts, now) && LastBoundary(b, starts, now)
    ensures a == b
  {
    if starts != {} {
      var p :| Sessionizes(p, starts) && p != [] && p[|p| - 1] == a;
      var q :| Sessionizes(q, starts) && q != [] && q[|q| - 1] == b;
      SessionizationUnique(p, q, starts);
    }
  }

  lemma EndOfCut(bs: seq<int>, starts: set<int>, now: int)
    requires Sessionizes(bs, starts) && bs != []
    ensures LastBoundary(bs[|bs| - 1], starts, now)
  {
    assert bs[0] in bs;
  }

  lemma CutEndsAtBoundary(bs: seq<int>, starts: set<int>, windowStart: int, now: int)
    requires Sessionizes(bs, starts) && bs != [] && LastBoundary(windowStart, starts, now)
    ensures bs[|bs| - 1] == windowStart
  {
    EndOfCut(bs, starts, now);
    LastBoundaryUnique(windowStart, bs[|bs| - 1], starts, now);
  }

  ghost function Since(starts: set<int>, b: int): set<int>
  {
    set t | t in starts && t >= b
  }

  lemma SuffixSessionizes(bs: seq<int>, k: nat, starts: set<int>)
    requires Sessionizes(bs, starts) && k < |bs|
    ensures Sessionizes(bs[k..], Since(starts, bs[k]))
  {
    var cut, rest := bs[k..], Since(starts, bs[k]);
    forall t | t in rest ensures InSession(cut, t) {
      assert InSession(bs, t);
      var i :| 0 <= i < |bs| && bs[i] <= t < bs[i] + WINDOW_MS;
      Spaced(bs, starts, i, k);
      assert cut[i - k] == bs[i];
    }
    forall i | 0 <= i < |cut| ensures cut[i] in rest {
      assert cut[i] == bs[k + i] && bs[k + i] in bs;
      assert i > 0 ==> bs[k] + WINDOW_MS <= bs[k + i];
    }
  }

  /** Forgetting every start before a true boundary leaves the inferred window where it was. */
  lemma OlderStartsDoNotMatter(bs: seq<int>, k: nat, starts: set<int>, windowStart: int, now: int)
    requires Sessionizes(bs, starts) && k < |bs| && LastBoundary(windowStart, starts, now)
    ensures LastBoundary(windowStart, Since(starts, bs[k]), now)
  {
    CutEndsAtBoundary(bs, starts, windowStart, now);
    SuffixSessionizes(bs, k, starts);
    EndOfCut(bs[k..], Since(starts, bs[k]), now);
  }

  /**
   The inferred window may have expired: it still holds the present moment exactly when a request made
   now would not open a new one.
   */
  lemma ExpiredExactly(starts: set<int>, now: int, windowStart: int, withNow: int)
    requires starts != {} && (forall t :: t in starts ==> t <= now)
    requires LastBoundary(windowStart, starts, now) && LastBoundary(withNow, starts + {now}, now)
    ensures now < windowStart + WINDOW_MS <==> withNow == windowStart
    ensures now >= windowStart + WINDOW_MS ==> withNow == now
  {
    var bs :| Sessionizes(bs, starts) && bs != [] && bs[|bs| - 1] == windowStart;
    NextStart(bs, starts, now);
    var bs' := if now >= windowStart + WINDOW_MS then bs + [now] else bs;
    CutEndsAtBoundary(bs', starts + {now}, withNow, now);
  }

  lemma OneSession(t: int)
    ensures Sessionizes([t], {t})
  {
    assert InSession([t], t) by { assert [t][0] == t; }
  }

  lemma {:induction false} OneConsidered(t: int, now: int)
    requires t <= now
    ensures SetOf(Considered([t], now, None)) == {t}
  {
    assert [t][..0] == [] && Considered([t], now, None) == [] + [t];
    assert SetOf([t]) == {t};
  }

  /** One start, asked about when its window has just run out: the window inferred is the one that is over. */
  lemma ExpiredWindowIsInferred(windowStart: int)
    requires LastBoundary(windowStart, SetOf(Considered([0], WINDOW_MS, None)), WINDOW_MS)
    ensures windowStart == 0 && windowStart + WINDOW_MS <= WINDOW_MS
    ensures LastBoundary(WINDOW_MS, {0} + {WINDOW_MS}, WINDOW_MS)
  {
    OneConsidered(0, WINDOW_MS);
    OneSession(0);
    CutEndsAtBoundary([0], {0}, windowStart, WINDOW_MS);
    NextStart([0], {0}, WINDOW_MS);
    EndOfCut([0] + [WINDOW_MS], {0} + {WINDOW_MS}, WINDOW_MS);
  }

  // ---------------------------------------------------------------- learned capacity

  function Floor(x: real): int
  {
    x.Floor
  }

  function Ceil(x: real): int
  {
    -((-x).Floor)
  }

  /** The point a fraction f of the way from a to b. */
  function Between(a: int, b: int, f: real): real
  {
    a as real + f * (b - a) as real
  }

  lemma FractionBounds(f: real, d: real)
    requires 0.0 <= f <= 1.0 && 0.0 <= d
    ensures 0.0 <= f * d <= d
  {
    assert f * d <= 1.0 * d;
  }

  lemma BetweenBounds(a: int, b: int, f: real)
    requires 0.0 <= f <= 1.0 && a <= b
    ensures a as real <= Between(a, b, f) <= b as real
  {
    FractionBounds(f, (b - a) as real);
  }

  lemma BetweenMonotone(a: int, b: int, f: real, g: real)
    requires 0.0 <= f <= g <= 1.0 && a <= b
    ensures Between(a, b, f) <= Between(a, b, g)
  {
    FractionBounds(g - f, (b - a) as real);
    assert g * (b - a) as real == f * (b - a) as real + (g - f) * (b - a) as real;
  }

  ghost predicate Ascends(sorted: seq<int>)
  {
    forall i, j :: 0 <= i < j < |sorted| ==> sorted[i] <= sorted[j]
  }

  /** The value of a sorted list at a fractional position, between two neighbours. */
  function ValueAt(sorted: seq<int>, pos: real): real
    requires sorted != [] && 0.0 <= pos <= (|sorted| - 1) as real
  {
    Between(sorted[Floor(pos)], sorted[Ceil(pos)], pos - Floor(pos) as real)
  }

  lemma ValueAtBounds(sorted: seq<int>, pos: real)
    requires Ascends(sorted) && sorted != [] && 0.0 <= pos <= (|sorted| - 1) as real
    ensures sorted[Floor(pos)] as real <= ValueAt(sorted, pos) <= sorted[Ceil(pos)] as real
  {
    BetweenBounds(sorted[Floor(pos)], sorted[Ceil(pos)], pos - Floor(pos) as real);
  }

  lemma ValueAtMonotone(sorted: seq<int>, p: real, r: real)
    requires Ascends(sorted) && sorted != []
    requires 0.0 <= p <= r <= (|sorted| - 1) as real
    ensures ValueAt(sorted, p) <= ValueAt(sorted, r)
  {
    if Floor(p) == Floor(r) {
      if Ceil(p) == Ceil(r) {
        BetweenMonotone(sorted[Floor(p)], sorted[Ceil(p)], p - Floor(p) as real, r - Floor(r) as real);
      } else {
        ValueAtBounds(sorted, p);
        ValueAtBounds(sorted, r);
      }
    } else {
      ValueAtBounds(sorted, p);
      ValueAtBounds(sorted, r);
    }
  }

  /** The position of quantile q in a list of n values. */
  function Position(q: real, n: nat): (pos: real)
    requires 0.0 <= q <= 1.0 && n > 0
    ensures 0.0 <= pos <= (n - 1) as real
  {
    FractionBounds(q, (n - 1) as real);
    q * (n - 1) as real
  }

  lemma PositionMonotone(q: real, r: real, n: nat)
    requires 0.0 <= q <= r <= 1.0 && n > 0
    ensures Position(q, n) <= Position(r, n)
  {
    FractionBounds(r - q, (n - 1) as real);
    assert r * (n - 1) as real == q * (n - 1) as real + (r - q) * (n - 1) as real;
  }

  function QuantileFloor(values: seq<int>, q: real): int
    requires values != [] && 0.0 <= q <= 1.0
  {
    var sorted := Sort(values, Ascending());
    if |sorted| == 1 then sorted[0]
    else
      Floor(ValueAt(sorted, Position(q, |sorted|)))
  }

  lemma {:induction false} SortAscends(values: seq<int>)
    ensures Ascends(Sort(values, Ascending()))
  {
    SortSorts(values, Ascending());
    var sorted := Sort(values, Ascending());
    forall i, j | 0 <= i < j < |sorted| ensures sorted[i] <= sorted[j] { assert Ascending()(sorted[i], sorted[j]); }
  }

  lemma {:induction false} QuantileIsValueAt(values: seq<int>, q: real)
    requires values != [] && 0.0 <= q <= 1.0
    ensures var sorted := Sort(values, Ascending());
            Ascends(sorted) && QuantileFloor(values, q) == Floor(ValueAt(sorted, Position(q, |sorted|)))
  {
    SortAscends(values);
    if |values| == 1 { SinglePosition(q); }
  }

  lemma SinglePosition(q: real)
    requires 0.0 <= q <= 1.0
    ensures Position(q, 1) == 0.0
  {
  }

  /** The learned value lies between the order statistics on either side of the position. */
  lemma {:induction false} QuantileBetweenNeighbours(values: seq<int>, q: real)
    requires values != [] && 0.0 <= q <= 1.0
    ensures var sorted := Sort(values, Ascending());
            var pos := Position(q, |sorted|);
            sorted[Floor(pos)] <= QuantileFloor(values, q) <= sorted[Ceil(pos)]
  {
    QuantileIsValueAt(values, q);
    ValueAtBounds(Sort(values, Ascending()), Position(q, |values|));
  }

  /** The order in which episodes are listed does not matter. */
  lemma QuantileForgetsOrder(a: seq<int>, b: seq<int>, q: real)
    requires a != [] && b != [] && multiset(a) == multiset(b) && 0.0 <= q <= 1.0
    ensures QuantileFloor(a, q) == QuantileFloor(b, q)
  {
    SortForgetsOrder(a, b);
    QuantileIsValueAt(a, q);
    QuantileIsValueAt(b, q);
  }

  /**
   Exactly what is learned: the value at the fractional position q * (n - 1) of the sorted list, on the straight
   line between the two neighbours at k and hi, rounded down.
   */
  lemma QuantileInterpolates(values: seq<int>, q: real, sorted: seq<int>, pos: real, k: nat, hi: nat)
    requires values != [] && 0.0 <= q <= 1.0 && Ascends(sorted) && multiset(sorted) == multiset(values)
    requires pos == q * (|values| - 1) as real && k as real <= pos < (k + 1) as real
    requires hi == if pos == k as real then k else k + 1
    ensures |sorted| == |values| && k <= hi < |sorted|
    ensures var exact := sorted[k] as real + (pos - k as real) * (sorted[hi] - sorted[k]) as real;
            QuantileFloor(values, q) as real <= exact < (QuantileFloor(values, q) + 1) as real
  {
    PermutationLength(sorted, values);
    SortedIs(values, sorted);
    QuantileIsValueAt(values, q);
    assert pos == Position(q, |values|);
    InterpolatedAt(sorted, pos, k, hi);
  }

  lemma SortedIs(values: seq<int>, sorted: seq<int>)
    requires Ascends(sorted) && multiset(sorted) == multiset(values)
    ensures sorted == Sort(values, Ascending())
  {
    SortAscends(values);
    SortSorts(values, Ascending());
    SortedUnique(sorted, Sort(values, Ascending()));
  }

  lemma Neighbours(pos: real, k: nat)
    requires k as real <= pos < (k + 1) as real
    ensures Floor(pos) == k && Ceil(pos) == if pos == k as real then k else k + 1
  {
  }

  lemma InterpolatedAt(sorted: seq<int>, pos: real, k: nat, hi: nat)
    requires sorted != [] && 0.0 <= pos <= (|sorted| - 1) as real && k as real <= pos < (k + 1) as real
    requires hi == if pos == k as real then k else k + 1
    ensures k <= hi < |sorted|
    ensures var exact := sorted[k] as real + (pos - k as real) * (sorted[hi] - sorted[k]) as real;
            Floor(ValueAt(sorted, pos)) as real <= exact < (Floor(ValueAt(sorted, pos)) + 1) as real
  {
    Neighbours(pos, k);
    NeighbourExists(|sorted|, pos, k);
    assert ValueAt(sorted, pos) == Between(sorted[k], sorted[hi], pos - k as real);
    BetweenIs(sorted[k], sorted[hi], pos - k as real);
    FloorBounds(ValueAt(sorted, pos));
  }

  lemma BetweenIs(a: int, b: int, f: real)
    ensures Between(a, b, f) == a as real + f * (b - a) as real
  {
  }

  lemma NeighbourExists(n: nat, pos: real, k: nat)
    requires n > 0 && pos <= (n - 1) as real && k as real <= pos
    ensures (if pos == k as real then k else k + 1) < n
  {
  }

  lemma FloorBounds(x: real)
    ensures Floor(x) as real <= x < (Floor(x) + 1) as real
  {
  }

  /** A lower quantile setting is the more cautious one: it never learns a larger capacity. */
  lemma LowerQuantileIsCautious(values: seq<int>, q: real, r: real)
    requires values != [] && 0.0 <= q <= r <= 1.0
    ensures QuantileFloor(values, q) <= QuantileFloor(values, r)
  {
    QuantileIsValueAt(values, q);
    QuantileIsValueAt(values, r);
    PositionMonotone(q, r, |values|);
    ValueAtMonotone(Sort(values, Ascending()), Position(q, |values|), Position(r, |values|));
  }

  datatype Episode = Episode(exhaustedAt: int, workerCount: int, turns: int, inputTokens: int, outputTokens: int,
                             weightedTurns: Option<int>, weightedTokens: Option<int>)

  datatype Confidence = Unknown | Low | Good

  datatype Capacity = Capacity(samples: nat, confidence: Confidence, workerCount: Option<int>, turns: Option<int>,
                               tokens: Option<int>, weightedTurns: Option<int>, weightedTokens: Option<int>)

  /** The episode measured some work. */
  predicate IsUsable(e: Episode)
  {
    e.workerCount > 0 || e.turns > 0 || e.inputTokens + e.outputTokens > 0
  }

  function UsableEpisodes(episodes: seq<Episode>): seq<Episode>
  {
    if episodes == [] then []
    else
      var rest := UsableEpisodes(episodes[1..]);
      if IsUsable(episodes[0]) then [episodes[0]] + rest else rest
  }

  function NewestFirst(): (Episode, Episode) -> bool
  {
    (a: Episode, b: Episode) => a.exhaustedAt >= b.exhaustedAt
  }

  /** The most recent episodes that measured any work. */
  function Recent(episodes: seq<Episode>, maxSamples: nat): seq<Episode>
  {
    var sorted := Sort(UsableEpisodes(episodes), NewestFirst());
    if |sorted| <= maxSamples then sorted else sorted[..maxSamples]
  }

  function PositiveValues(episodes: seq<Episode>, pick: Episode -> int): seq<int>
  {
    if episodes == [] then []
    else
      var rest := PositiveValues(episodes[1..], pick);
      if pick(episodes[0]) > 0 then [pick(episodes[0])] + rest else rest
  }

  function LearnMetric(episodes: seq<Episode>, pick: Episode -> int, quantile: real): Option<int>
    requires 0.0 <= quantile <= 1.0
  {
    var positive := PositiveValues(episodes, pick);
    if |positive| < MIN_SAMPLES then None
    else
      var capacity := QuantileFloor(positive, quantile);
      if capacity > 0 then Some(capacity) else None
  }

  function WorkersOf(): Episode -> int
  {
    (e: Episode) => e.workerCount
  }

  function TurnsOf(): Episode -> int
  {
    (e: Episode) => e.turns
  }

  function TokensOf(): Episode -> int
  {
    (e: Episode) => e.inputTokens + e.outputTokens
  }

  function WeightedTurnsOf(): Episode -> int
  {
    (e: Episode) => if e.weightedTurns.Some? then e.weightedTurns.value else 0
  }

  function WeightedTokensOf(): Episode -> int
  {
    (e: Episode) => if e.weightedTokens.Some? then e.weightedTokens.value else 0
  }

  function LearnOauthCapacity(episodes: seq<Episode>, maxSamples: nat, quantile: real): Capacity
    requires 0.0 <= quantile <= 1.0
  {
    var usable := Recent(episodes, maxSamples);
    var confidence := if |usable| >= GOOD_SAMPLES then Good else if |usable| >= MIN_SAMPLES then Low else Unknown;
    if confidence == Unknown then Capacity(|usable|, confidence, None, None, None, None, None)
    else
      Capacity(|usable|, confidence,
               LearnMetric(usable, WorkersOf(), quantile),
               LearnMetric(usable, TurnsOf(), quantile),
               LearnMetric(usable, TokensOf(), quantile),
               LearnMetric(usable, WeightedTurnsOf(), quantile),
               LearnMetric(usable, WeightedTokensOf(), quantile))
  }

  lemma {:induction false} PositiveValuesFacts(episodes: seq<Episode>, pick: Episode -> int)
    ensures forall v :: v in PositiveValues(episodes, pick) <==> v > 0 && exists e :: e in episodes && pick(e) == v
  {
    if episodes != [] {
      PositiveValuesFacts(episodes[1..], pick);
      assert episodes == [episodes[0]] + episodes[1..];
    }
  }

  /** A learned capacity was bracketed by what recent episodes held, so it is never above the best of them. */
  lemma LearnedIsObserved(episodes: seq<Episode>, pick: Episode -> int, quantile: real)
    requires 0.0 <= quantile <= 1.0
    ensures var learned := LearnMetric(episodes, pick, quantile);
            learned.Some? ==>
              && (exists lo :: lo in episodes && 0 < pick(lo) <= learned.value)
              && (exists hi :: hi in episodes && learned.value <= pick(hi))
  {
    var positive := PositiveValues(episodes, pick);
    var learned := LearnMetric(episodes, pick, quantile);
    PositiveValuesFacts(episodes, pick);
    if learned.Some? {
      QuantileBetweenNeighbours(positive, quantile);
      var sorted := Sort(positive, Ascending());
      SortSorts(positive, Ascending());
      PermutationMembers(sorted, positive);
      var pos := Position(quantile, |sorted|);
      assert sorted[Floor(pos)] in positive && sorted[Ceil(pos)] in positive;
    }
  }

  lemma {:induction false} PositiveValuesMultiset(a: seq<Episode>, pick: Episode -> int, v: int)
    ensures multiset(PositiveValues(a, pick))[v] == Sum(a, CountsAs(pick, v))
  {
    if a != [] {
      PositiveValuesMultiset(a[1..], pick, v);
    }
  }

  function CountsAs(pick: Episode -> int, v: int): Episode -> int
  {
    (e: Episode) => if pick(e) > 0 && pick(e) == v then 1 else 0
  }

  /** What is learned from the chosen episodes does not depend on their order. */
  lemma LearningForgetsOrder(a: seq<Episode>, b: seq<Episode>, pick: Episode -> int, quantile: real)
    requires multiset(a) == multiset(b) && 0.0 <= quantile <= 1.0
    ensures LearnMetric(a, pick, quantile) == LearnMetric(b, pick, quantile)
  {
    var pa, pb := PositiveValues(a, pick), PositiveValues(b, pick);
    forall v ensures multiset(pa)[v] == multiset(pb)[v] {
      PositiveValuesMultiset(a, pick, v);
      PositiveValuesMultiset(b, pick, v);
      SumPermutation(a, b, CountsAs(pick, v));
    }
    assert multiset(pa) == multiset(pb);
    PermutationLength(pa, pb);
    if |pa| >= MIN_SAMPLES {
      QuantileForgetsOrder(pa, pb, quantile);
    }
  }

  /** The first n are those after the time t, and the others are not. */
  ghost predicate CutAt(s: seq<Episode>, n: nat, t: int)
  {
    && n <= |s| && (forall k :: 0 <= k < n ==> s[k].exhaustedAt > t)
    && (forall k :: n <= k < |s| ==> s[k].exhaustedAt <= t)
  }

  lemma CutCounts(s: seq<Episode>, n: nat, t: int, e: Episode)
    requires CutAt(s, n, t)
    ensures multiset(s[..n])[e] == if e.exhaustedAt > t then multiset(s)[e] else 0
  {
    assert s == s[..n] + s[n..];
    assert multiset(s)[e] == multiset(s[..n])[e] + multiset(s[n..])[e];
    if e.exhaustedAt > t {
      assert e !in s[n..];
    } else {
      assert e !in s[..n];
    }
  }

  lemma {:induction false} FindCut(s: seq<Episode>, t: int) returns (n: nat)
    requires SortedBy(s, NewestFirst())
    ensures CutAt(s, n, t)
  {
    n := 0;
    while n < |s| && s[n].exhaustedAt > t
      invariant n <= |s| && forall k :: 0 <= k < n ==> s[k].exhaustedAt > t
    {
      n := n + 1;
    }
    forall k | n <= k < |s| ensures s[k].exhaustedAt <= t {
      if k > n { assert NewestFirst()(s[n], s[k]); }
    }
  }

  lemma SameCut(a: seq<Episode>, b: seq<Episode>, n: nat, t: int)
    requires multiset(a) == multiset(b) && SortedBy(b, NewestFirst()) && CutAt(a, n, t)
    ensures CutAt(b, n, t) && multiset(a[..n]) == multiset(b[..n])
  {
    var m := FindCut(b, t);
    forall e ensures multiset(a[..n])[e] == multiset(b[..m])[e] {
      CutCounts(a, n, t, e);
      CutCounts(b, m, t, e);
    }
    assert multiset(a[..n]) == multiset(b[..m]);
    PermutationLength(a[..n], b[..m]);
  }

  lemma {:induction false} UsableMultiset(a: seq<Episode>, e: Episode)
    ensures multiset(UsableEpisodes(a))[e] ==
            if IsUsable(e) then multiset(a)[e] else 0
  {
    if a != [] {
      UsableMultiset(a[1..], e);
      assert a == [a[0]] + a[1..];
    }
  }

  ghost function NewestUsable(episodes: seq<Episode>): seq<Episode>
  {
    Sort(UsableEpisodes(episodes), NewestFirst())
  }

  /** No two different usable episodes of the same time lie on either side of the limit. */
  ghost predicate NoTieAtLimit(episodes: seq<Episode>, maxSamples: nat)
  {
    var s := NewestUsable(episodes);
    forall i, j :: 0 <= i < maxSamples <= j < |s| && s[i].exhaustedAt == s[j].exhaustedAt ==> s[i] == s[j]
  }

  lemma NewestUsableFacts(a: seq<Episode>, b: seq<Episode>)
    requires multiset(a) == multiset(b)
    ensures multiset(NewestUsable(a)) == multiset(NewestUsable(b))
    ensures SortedBy(NewestUsable(a), NewestFirst()) && SortedBy(NewestUsable(b), NewestFirst())
  {
    SortSorts(UsableEpisodes(a), NewestFirst());
    SortSorts(UsableEpisodes(b), NewestFirst());
    forall e ensures multiset(UsableEpisodes(a))[e] == multiset(UsableEpisodes(b))[e] {
      UsableMultiset(a, e);
      UsableMultiset(b, e);
    }
    assert multiset(UsableEpisodes(a)) == multiset(UsableEpisodes(b));
  }

  /** The prefixes agree when the limit falls on a change of time. */
  lemma PrefixAtChange(a: seq<Episode>, b: seq<Episode>, n: nat)
    requires multiset(a) == multiset(b) && SortedBy(a, NewestFirst()) && SortedBy(b, NewestFirst())
    requires 0 < n < |a| && a[n - 1].exhaustedAt > a[n].exhaustedAt
    ensures n <= |b| && multiset(a[..n]) == multiset(b[..n])
  {
    forall k | 0 <= k < |a|
      ensures if k < n then a[k].exhaustedAt > a[n].exhaustedAt else a[k].exhaustedAt <= a[n].exhaustedAt
    {
      if k < n - 1 { assert NewestFirst()(a[k], a[n - 1]); }
      if k > n { assert NewestFirst()(a[n], a[k]); }
    }
    SameCut(a, b, n, a[n].exhaustedAt);
  }

  /** A stretch of the sorted episodes with one time, all of which are the same episode. */
  ghost predicate AllAre(s: seq<Episode>, lo: nat, hi: nat, e: Episode)
  {
    lo <= hi <= |s| && forall k :: lo <= k < hi ==> s[k] == e
  }

  lemma TiedAreEqual(a: seq<Episode>, n: nat, k: nat)
    requires 0 < n < |a| && k < |a| && a[n - 1].exhaustedAt == a[n].exhaustedAt == a[k].exhaustedAt
    requires forall i, j :: 0 <= i < n <= j < |a| && a[i].exhaustedAt == a[j].exhaustedAt ==> a[i] == a[j]
    ensures a[k] == a[n]
  {
    assert a[n - 1] == a[n];
    if k < n { assert a[k] == a[n]; } else { assert a[n - 1] == a[k]; }
  }

  lemma TiedStretch(a: seq<Episode>, b: seq<Episode>, n: nat, m: nat)
    requires multiset(a) == multiset(b) && 0 < n < |a| == |b| && m <= n
    requires a[n - 1].exhaustedAt == a[n].exhaustedAt
    requires forall i, j :: 0 <= i < n <= j < |a| && a[i].exhaustedAt == a[j].exhaustedAt ==> a[i] == a[j]
    requires forall k :: m <= k < n ==> b[k].exhaustedAt == a[n].exhaustedAt
    ensures AllAre(b, m, n, a[n])
  {
    PermutationMembers(a, b);
    forall k | m <= k < n ensures b[k] == a[n] {
      assert b[k] in a;
      var i :| 0 <= i < |a| && a[i] == b[k];
      TiedAreEqual(a, n, i);
    }
  }

  lemma SplitPrefix(a: seq<Episode>, b: seq<Episode>, m: nat, n: nat, e: Episode)
    requires AllAre(a, m, n, e) && AllAre(b, m, n, e) && multiset(a[..m]) == multiset(b[..m])
    ensures multiset(a[..n]) == multiset(b[..n])
  {
    assert a[..n] == a[..m] + a[m..n] && b[..n] == b[..m] + b[m..n];
    assert a[m..n] == b[m..n];
  }

  /** The prefixes agree when the limit falls among equal episodes. */
  lemma PrefixAmongEqual(a: seq<Episode>, b: seq<Episode>, n: nat)
    requires multiset(a) == multiset(b) && SortedBy(a, NewestFirst()) && SortedBy(b, NewestFirst())
    requires 0 < n < |a| && a[n - 1].exhaustedAt == a[n].exhaustedAt
    requires forall i, j :: 0 <= i < n <= j < |a| && a[i].exhaustedAt == a[j].exhaustedAt ==> a[i] == a[j]
    ensures n <= |b| && multiset(a[..n]) == multiset(b[..n])
  {
    var t := a[n].exhaustedAt;
    PermutationLength(a, b);
    var m := FindCut(a, t);
    var q := FindCut(a, t - 1);
    SameCut(a, b, m, t);
    SameCut(a, b, q, t - 1);
    assert m <= n - 1 && n < q;
    TiedStretch(a, a, n, m);
    TiedStretch(a, b, n, m);
    SplitPrefix(a, b, m, n, a[n]);
  }

  lemma RecentForgetsOrder(a: seq<Episode>, b: seq<Episode>, maxSamples: nat)
    requires multiset(a) == multiset(b) && NoTieAtLimit(a, maxSamples)
    ensures multiset(Recent(a, maxSamples)) == multiset(Recent(b, maxSamples))
  {
    var sa, sb := NewestUsable(a), NewestUsable(b);
    NewestUsableFacts(a, b);
    PermutationLength(sa, sb);
    if maxSamples == 0 {
      assert sa[..0] == sb[..0];
    } else if maxSamples < |sa| {
      assert NewestFirst()(sa[maxSamples - 1], sa[maxSamples]);
      if sa[maxSamples - 1].exhaustedAt > sa[maxSamples].exhaustedAt {
        PrefixAtChange(sa, sb, maxSamples);
      } else {
        PrefixAmongEqual(sa, sb, maxSamples);
      }
    }
  }

  // ---------------------------------------------------------------- when the order does matter

  function Unusable(episodes: seq<Episode>): seq<Episode>
  {
    if episodes == [] then []
    else
      var rest := Unusable(episodes[1..]);
      if IsUsable(episodes[0]) then rest else [episodes[0]] + rest
  }

  lemma {:induction false} UsableOrNot(a: seq<Episode>)
    ensures multiset(a) == multiset(UsableEpisodes(a)) + multiset(Unusable(a))
    ensures forall e :: e in UsableEpisodes(a) ==> IsUsable(e)
    ensures UsableEpisodes(Unusable(a)) == []
  {
    if a != [] {
      UsableOrNot(a[1..]);
      assert a == [a[0]] + a[1..];
    }
  }

  lemma {:induction false} UsableFirst(a: seq<Episode>, b: seq<Episode>)
    requires (forall e :: e in a ==> IsUsable(e)) && UsableEpisodes(b) == []
    ensures UsableEpisodes(a + b) == a
  {
    if a == [] {
      assert a + b == b;
    } else {
      assert (a + b)[1..] == a[1..] + b;
      UsableFirst(a[1..], b);
    }
  }

  /** A list of sorted usable episodes, with the others behind it, is used from its front. */
  lemma {:induction false} RecentOfSorted(s: seq<Episode>, rest: seq<Episode>, maxSamples: nat)
    requires SortedBy(s, NewestFirst()) && (forall e :: e in s ==> IsUsable(e)) && UsableEpisodes(rest) == []
    ensures Recent(s + rest, maxSamples) == if |s| <= maxSamples then s else s[..maxSamples]
  {
    UsableFirst(s, rest);
    SortOfSorted(s, NewestFirst());
  }

  function Swapped(s: seq<Episode>, i: nat, j: nat): seq<Episode>
    requires i < j < |s|
  {
    s[i := s[j]][j := s[i]]
  }

  lemma SwapSorted(s: seq<Episode>, i: nat, j: nat)
    requires i < j < |s| && SortedBy(s, NewestFirst()) && s[i].exhaustedAt == s[j].exhaustedAt
    ensures SortedBy(Swapped(s, i, j), NewestFirst()) && multiset(Swapped(s, i, j)) == multiset(s)
  {
    var t := Swapped(s, i, j);
    forall p, q | 0 <= p < q < |s| ensures NewestFirst()(t[p], t[q]) {
      assert t[p].exhaustedAt == s[p].exhaustedAt && t[q].exhaustedAt == s[q].exhaustedAt;
      assert NewestFirst()(s[p], s[q]);
    }
  }

  lemma SwapChangesPrefix(s: seq<Episode>, i: nat, j: nat, n: nat)
    requires i < n <= j < |s| && s[i] != s[j]
    ensures multiset(Swapped(s, i, j)[..n]) != multiset(s[..n])
  {
    var chosen := s[..n];
    assert Swapped(s, i, j)[..n] == chosen[i := s[j]];
    assert chosen[i] == s[i] && multiset(chosen[i := s[j]])[s[i]] == multiset(chosen)[s[i]] - 1;
  }

  lemma {:induction false} NewestIsUsable(a: seq<Episode>)
    ensures SortedBy(NewestUsable(a), NewestFirst()) && UsableEpisodes(Unusable(a)) == []
    ensures forall e :: e in NewestUsable(a) ==> IsUsable(e)
    ensures multiset(a) == multiset(NewestUsable(a)) + multiset(Unusable(a))
  {
    SortSorts(UsableEpisodes(a), NewestFirst());
    UsableOrNot(a);
    PermutationMembers(NewestUsable(a), UsableEpisodes(a));
  }

  /** Two different episodes of one time on either side of the limit: in another order the other one is used. */
  lemma TieMatters(a: seq<Episode>, maxSamples: nat, i: nat, j: nat) returns (b: seq<Episode>)
    requires var s := NewestUsable(a);
             i < maxSamples <= j < |s| && s[i].exhaustedAt == s[j].exhaustedAt && s[i] != s[j]
    ensures multiset(b) == multiset(a) && multiset(Recent(b, maxSamples)) != multiset(Recent(a, maxSamples))
  {
    var s, rest := NewestUsable(a), Unusable(a);
    var t := Swapped(s, i, j);
    NewestIsUsable(a);
    SwapSorted(s, i, j);
    PermutationMembers(t, s);
    b := t + rest;
    RecentOfSorted(t, rest, maxSamples);
    SwapChangesPrefix(s, i, j, maxSamples);
  }

  /** Which episodes are used never depends on their order exactly when no such tie is at the limit. */
  lemma RecentForgetsOrderExactly(a: seq<Episode>, maxSamples: nat)
    ensures (forall b :: multiset(b) == multiset(a) ==> multiset(Recent(b, maxSamples)) == multiset(Recent(a, maxSamples)))
            <==> NoTieAtLimit(a, maxSamples)
  {
    if NoTieAtLimit(a, maxSamples) {
      forall b | multiset(b) == multiset(a) ensures multiset(Recent(b, maxSamples)) == multiset(Recent(a, maxSamples)) {
        RecentForgetsOrder(a, b, maxSamples);
      }
    } else {
      var s := NewestUsable(a);
      var i, j :| 0 <= i < maxSamples <= j < |s| && s[i].exhaustedAt == s[j].exhaustedAt && s[i] != s[j];
      var b := TieMatters(a, maxSamples, i, j);
    }
  }

  /**
   What is learned does not depend on the order in which the episodes are given, as long as the limit on
   their number does not fall between two different ones of the same time.
   */
  lemma LearnedCapacityForgetsOrder(a: seq<Episode>, b: seq<Episode>, maxSamples: nat, quantile: real)
    requires multiset(a) == multiset(b) && NoTieAtLimit(a, maxSamples) && 0.0 <= quantile <= 1.0
    ensures LearnOauthCapacity(a, maxSamples, quantile) == LearnOauthCapacity(b, maxSamples, quantile)
  {
    var ra, rb := Recent(a, maxSamples), Recent(b, maxSamples);
    RecentForgetsOrder(a, b, maxSamples);
    PermutationLength(ra, rb);
    forall pick: Episode -> int ensures LearnMetric(ra, pick, quantile) == LearnMetric(rb, pick, quantile) {
      LearningForgetsOrder(ra, rb, pick, quantile);
    }
  }

  // What is learned, in terms of the episodes.

  ghost function Smaller(a: nat, b: nat): nat
  {
    if a <= b then a else b
  }

  /** The chosen episodes are usable ones, as many as the limit allows, and none that was left is newer. */
  lemma RecentIsNewest(episodes: seq<Episode>, maxSamples: nat) returns (rest: seq<Episode>)
    ensures var chosen := Recent(episodes, maxSamples);
            && (forall e :: (multiset(chosen) + multiset(rest))[e] ==
                  if e.workerCount > 0 || e.turns > 0 || e.inputTokens + e.outputTokens > 0
                  then multiset(episodes)[e] else 0)
            && |chosen| == Smaller(maxSamples, |chosen| + |rest|)
            && (forall i, j :: 0 <= i < |chosen| && 0 <= j < |rest| ==> chosen[i].exhaustedAt >= rest[j].exhaustedAt)
  {
    var s := NewestUsable(episodes);
    var n := Smaller(maxSamples, |s|);
    rest := s[n..];
    assert Recent(episodes, maxSamples) == s[..n] && s == s[..n] + rest;
    NewestCounts(episodes);
    NewestDescends(episodes);
  }

  lemma NewestCounts(episodes: seq<Episode>)
    ensures forall e :: multiset(NewestUsable(episodes))[e] ==
              if e.workerCount > 0 || e.turns > 0 || e.inputTokens + e.outputTokens > 0 then multiset(episodes)[e] else 0
  {
    SortSorts(UsableEpisodes(episodes), NewestFirst());
    forall e ensures multiset(UsableEpisodes(episodes))[e] == if IsUsable(e) then multiset(episodes)[e] else 0 {
      UsableMultiset(episodes, e);
    }
  }

  lemma NewestDescends(episodes: seq<Episode>)
    ensures var s := NewestUsable(episodes);
            forall i, j :: 0 <= i < j < |s| ==> s[i].exhaustedAt >= s[j].exhaustedAt
  {
    var s := NewestUsable(episodes);
    SortSorts(UsableEpisodes(episodes), NewestFirst());
    forall i, j | 0 <= i < j < |s| ensures s[i].exhaustedAt >= s[j].exhaustedAt {
      assert NewestFirst()(s[i], s[j]);
    }
  }

  function IsPositive(): int -> bool
  {
    (v: int) => v > 0
  }

  /** A metric is learned from at least three positive values, as their quantile, if that is positive. */
  ghost predicate IsLearned(metric: Option<int>, values: seq<int>, quantile: real)
    requires 0.0 <= quantile <= 1.0
  {
    var positive := Filter(values, IsPositive());
    && (metric.Some? <==> |positive| >= 3 && QuantileFloor(positive, quantile) > 0)
    && (metric.Some? ==> metric == Some(QuantileFloor(positive, quantile)))
  }

  ghost function Picked(episodes: seq<Episode>, pick: Episode -> int): seq<int>
  {
    seq(|episodes|, i requires 0 <= i < |episodes| => pick(episodes[i]))
  }

  lemma {:induction false} PositiveIsFiltered(episodes: seq<Episode>, pick: Episode -> int)
    ensures PositiveValues(episodes, pick) == Filter(Picked(episodes, pick), IsPositive())
  {
    if episodes != [] {
      PositiveIsFiltered(episodes[1..], pick);
      assert Picked(episodes, pick)[1..] == Picked(episodes[1..], pick);
    }
  }

  lemma MetricIsLearned(chosen: seq<Episode>, pick: Episode -> int, quantile: real, values: seq<int>)
    requires 0.0 <= quantile <= 1.0 && |values| == |chosen|
    requires forall i :: 0 <= i < |chosen| ==> values[i] == pick(chosen[i])
    ensures IsLearned(LearnMetric(chosen, pick, quantile), values, quantile)
  {
    PositiveIsFiltered(chosen, pick);
    assert values == Picked(chosen, pick);
  }

  /** Nothing is learned from fewer than three chosen episodes, and from five on the confidence is good. */
  lemma LearnedConfidence(episodes: seq<Episode>, maxSamples: nat, quantile: real)
    requires 0.0 <= quantile <= 1.0
    ensures var c, n := LearnOauthCapacity(episodes, maxSamples, quantile), |Recent(episodes, maxSamples)|;
            && c.samples == n && (c.confidence == Good <==> n >= 5) && (c.confidence == Unknown <==> n < 3)
            && (n < 3 ==> c.workerCount.None? && c.turns.None? && c.tokens.None? && c.weightedTurns.None? &&
                          c.weightedTokens.None?)
  {
  }

  /** Each metric is learned from its own field; a missing weighted field counts as zero. */
  lemma LearnedExactly(episodes: seq<Episode>, maxSamples: nat, quantile: real)
    requires 0.0 <= quantile <= 1.0 && |Recent(episodes, maxSamples)| >= 3
    ensures var c, chosen := LearnOauthCapacity(episodes, maxSamples, quantile), Recent(episodes, maxSamples);
            var n := |chosen|;
            && IsLearned(c.workerCount, seq(n, i requires 0 <= i < n => chosen[i].workerCount), quantile)
            && IsLearned(c.turns, seq(n, i requires 0 <= i < n => chosen[i].turns), quantile)
            && IsLearned(c.tokens, seq(n, i requires 0 <= i < n => chosen[i].inputTokens + chosen[i].outputTokens), quantile)
            && IsLearned(c.weightedTurns, seq(n, i requires 0 <= i < n => OrZero(chosen[i].weightedTurns)), quantile)
            && IsLearned(c.weightedTokens, seq(n, i requires 0 <= i < n => OrZero(chosen[i].weightedTokens)), quantile)
  {
    var chosen := Recent(episodes, maxSamples);
    var n := |chosen|;
    MetricIsLearned(chosen, WorkersOf(), quantile, seq(n, i requires 0 <= i < n => chosen[i].workerCount));
    MetricIsLearned(chosen, TurnsOf(), quantile, seq(n, i requires 0 <= i < n => chosen[i].turns));
    MetricIsLearned(chosen, TokensOf(), quantile,
                    seq(n, i requires 0 <= i < n => chosen[i].inputTokens + chosen[i].outputTokens));
    MetricIsLearned(chosen, WeightedTurnsOf(), quantile, seq(n, i requires 0 <= i < n => OrZero(chosen[i].weightedTurns)));
    MetricIsLearned(chosen, WeightedTokensOf(), quantile, seq(n, i requires 0 <= i < n => OrZero(chosen[i].weightedTokens)));
  }

  function OrZero(v: Option<int>): int
  {
    match v case Some(x) => x case None => 0
  }

  // ---------------------------------------------------------------- usage and pressure

  /** What a model costs in sonnet-equivalents; an unknown model weighs as much as sonnet. */
  function ModelWeight(model: Option<string>): (weight: real)
    ensures 0.27 <= weight <= 5.0
  {
    match model
    case None => 1.0
    case Some(name) =>
      var m := Lower(name);
      if Occurs("opus", m) || m == "premium" then 5.0
      else if Occurs("haiku", m) || m == "budget" then 0.27
      else 1.0
  }

  /** The weight of a model in hundredths: five for opus, a little over a quarter for haiku, and one for the rest. */
  function Hundredths(model: Option<string>): int
  {
    var name := if model.Some? then Lower(model.value) else "";
    if Occurs("opus", name) || name == "premium" then 500
    else if Occurs("haiku", name) || name == "budget" then 27
    else 100
  }

  lemma WeightExactly(model: Option<string>)
    ensures ModelWeight(model) * 100.0 == Hundredths(model) as real
  {
    if model.None? {
      assert !Occurs("opus", "") && !Occurs("haiku", "");
    }
  }

  datatype WorkerUsageRow = WorkerUsageRow(model: Option<string>, turns: nat, inputTokens: nat, outputTokens: nat)

  datatype Usage = Usage(workerCount: nat, turns: nat, tokens: nat, weightedTurns: int, weightedTokens: int)

  datatype Limiter = Workers | Turns | Tokens

  function WeightedTurns(rows: seq<WorkerUsageRow>): real
  {
    if rows == [] then 0.0
    else WeightedTurns(rows[..|rows| - 1]) + rows[|rows| - 1].turns as real * ModelWeight(rows[|rows| - 1].model)
  }

  function WeightedTokens(rows: seq<WorkerUsageRow>): real
  {
    if rows == [] then 0.0
    else
      var r := rows[|rows| - 1];
      WeightedTokens(rows[..|rows| - 1]) + (r.inputTokens + r.outputTokens) as real * ModelWeight(r.model)
  }

  function TotalTurns(rows: seq<WorkerUsageRow>): nat
  {
    if rows == [] then 0 else TotalTurns(rows[..|rows| - 1]) + rows[|rows| - 1].turns
  }

  function TotalTokens(rows: seq<WorkerUsageRow>): nat
  {
    if rows == [] then 0
    else TotalTokens(rows[..|rows| - 1]) + rows[|rows| - 1].inputTokens + rows[|rows| - 1].outputTokens
  }

  ghost function UsageOf(rows: seq<WorkerUsageRow>): Usage
  {
    Usage(|rows|, TotalTurns(rows), TotalTokens(rows), Floor(WeightedTurns(rows)), Floor(WeightedTokens(rows)))
  }

  method SummarizeWindowUsage(rows: seq<WorkerUsageRow>) returns (usage: Usage)
    ensures usage == UsageOf(rows)
  {
    var turns, tokens, weightedTurns, weightedTokens := 0, 0, 0.0, 0.0;
    for i := 0 to |rows|
      invariant turns == TotalTurns(rows[..i]) && tokens == TotalTokens(rows[..i])
      invariant weightedTurns == WeightedTurns(rows[..i]) && weightedTokens == WeightedTokens(rows[..i])
    {
      var row := rows[i];
      assert rows[..i + 1][..i] == rows[..i];
      var weight := ModelWeight(row.model);
      var rowTokens := row.inputTokens + row.outputTokens;
      turns := turns + row.turns;
      tokens := tokens + rowTokens;
      weightedTurns := weightedTurns + row.turns as real * weight;
      weightedTokens := weightedTokens + rowTokens as real * weight;
    }
    assert rows[..|rows|] == rows;
    usage := Usage(|rows|, turns, tokens, Floor(weightedTurns), Floor(weightedTokens));
  }

  function TurnsIn(): WorkerUsageRow -> int
  {
    (r: WorkerUsageRow) => r.turns
  }

  function TokensIn(): WorkerUsageRow -> int
  {
    (r: WorkerUsageRow) => r.inputTokens + r.outputTokens
  }

  function WeighedTurnsIn(): WorkerUsageRow -> int
  {
    (r: WorkerUsageRow) => r.turns * Hundredths(r.model)
  }

  function WeighedTokensIn(): WorkerUsageRow -> int
  {
    (r: WorkerUsageRow) => (r.inputTokens + r.outputTokens) * Hundredths(r.model)
  }

  lemma {:induction false} WeighedTurnsSum(rows: seq<WorkerUsageRow>)
    ensures WeightedTurns(rows) * 100.0 == Sum(rows, WeighedTurnsIn()) as real
  {
    if rows != [] {
      var n := |rows| - 1;
      WeighedTurnsSum(rows[..n]);
      assert rows == rows[..n] + [rows[n]];
      SumSnoc(rows[..n], rows[n], WeighedTurnsIn());
      WeighedMore(WeightedTurns(rows[..n]), Sum(rows[..n], WeighedTurnsIn()), rows[n].turns, rows[n].model);
    }
  }

  lemma {:induction false} WeighedTokensSum(rows: seq<WorkerUsageRow>)
    ensures WeightedTokens(rows) * 100.0 == Sum(rows, WeighedTokensIn()) as real
  {
    if rows != [] {
      var n := |rows| - 1;
      WeighedTokensSum(rows[..n]);
      assert rows == rows[..n] + [rows[n]];
      SumSnoc(rows[..n], rows[n], WeighedTokensIn());
      WeighedMore(WeightedTokens(rows[..n]), Sum(rows[..n], WeighedTokensIn()),
                  rows[n].inputTokens + rows[n].outputTokens, rows[n].model);
    }
  }

  lemma WeighedMore(x: real, before: int, amount: int, model: Option<string>)
    requires x * 100.0 == before as real
    ensures (x + amount as real * ModelWeight(model)) * 100.0 == (before + amount * Hundredths(model)) as real
  {
    Weighed(amount, model);
  }

  lemma {:induction false} RawSums(rows: seq<WorkerUsageRow>)
    ensures TotalTurns(rows) == Sum(rows, TurnsIn()) && TotalTokens(rows) == Sum(rows, TokensIn())
  {
    if rows != [] {
      var n := |rows| - 1;
      RawSums(rows[..n]);
      assert rows == rows[..n] + [rows[n]];
      SumSnoc(rows[..n], rows[n], TurnsIn());
      SumSnoc(rows[..n], rows[n], TokensIn());
    }
  }

  lemma Weighed(amount: int, model: Option<string>)
    ensures amount as real * ModelWeight(model) * 100.0 == (amount * Hundredths(model)) as real
  {
    WeightExactly(model);
    assert amount as real * ModelWeight(model) * 100.0 == amount as real * (ModelWeight(model) * 100.0);
  }

  lemma FloorOfHundredths(x: real, n: int)
    requires x * 100.0 == n as real
    ensures Floor(x) == n / 100
  {
    var f := Floor(x);
    assert f as real * 100.0 <= n as real < (f + 1) as real * 100.0;
  }

  /** A window's usage in whole numbers: rows, turns and tokens added up, the weighted ones in hundredths and cut off once. */
  lemma UsageExactly(rows: seq<WorkerUsageRow>)
    ensures var u := UsageOf(rows);
            && u.workerCount == |rows| && u.turns == Sum(rows, TurnsIn()) && u.tokens == Sum(rows, TokensIn())
            && u.weightedTurns == Sum(rows, WeighedTurnsIn()) / 100
            && u.weightedTokens == Sum(rows, WeighedTokensIn()) / 100
  {
    RawSums(rows);
    WeighedTurnsSum(rows);
    WeighedTokensSum(rows);
    FloorOfHundredths(WeightedTurns(rows), Sum(rows, WeighedTurnsIn()));
    FloorOfHundredths(WeightedTokens(rows), Sum(rows, WeighedTokensIn()));
  }

  /** A learned metric is positive, so dividing by it is safe. */
  predicate ValidCapacity(c: Capacity)
  {
    && Positive(c.workerCount) && Positive(c.turns) && Positive(c.tokens)
    && Positive(c.weightedTurns) && Positive(c.weightedTokens)
  }

  predicate Positive(v: Option<int>)
  {
    v.Some? ==> v.value > 0
  }

  lemma LearnedCapacityIsValid(episodes: seq<Episode>, maxSamples: nat, quantile: real)
    requires 0.0 <= quantile <= 1.0
    ensures ValidCapacity(LearnOauthCapacity(episodes, maxSamples, quantile))
  {
  }

  function Ratio(used: int, capacity: int): real
    requires capacity > 0
  {
    used as real / capacity as real
  }

  datatype Binding = Binding(limiter: Limiter, pct: real)

  function WorkerRatios(usage: Usage, c: Capacity): seq<Binding>
    requires ValidCapacity(c)
  {
    if c.workerCount.Some? then [Binding(Workers, Ratio(usage.workerCount, c.workerCount.value))] else []
  }

  function TurnRatios(usage: Usage, c: Capacity): seq<Binding>
    requires ValidCapacity(c)
  {
    if c.weightedTurns.Some? then [Binding(Turns, Ratio(usage.weightedTurns, c.weightedTurns.value))]
    else if c.turns.Some? then [Binding(Turns, Ratio(usage.turns, c.turns.value))]
    else []
  }

  function TokenRatios(usage: Usage, c: Capacity): seq<Binding>
    requires ValidCapacity(c)
  {
    if c.weightedTokens.Some? then [Binding(Tokens, Ratio(usage.weightedTokens, c.weightedTokens.value))]
    else if c.tokens.Some? then [Binding(Tokens, Ratio(usage.tokens, c.tokens.value))]
    else []
  }

  /** The ratios that take part: weighted turns and tokens where learned, the raw ones otherwise. */
  function Ratios(usage: Usage, c: Capacity): seq<Binding>
    requires ValidCapacity(c)
  {
    WorkerRatios(usage, c) + TurnRatios(usage, c) + TokenRatios(usage, c)
  }

  /** The ratio of what was used to what was learned; a weighted metric, where learned, stands in for the raw one. */
  ghost predicate TakesPart(b: Binding, usage: Usage, c: Capacity)
  {
    match b.limiter
    case Workers => c.workerCount.Some? && b.pct * c.workerCount.value as real == usage.workerCount as real
    case Turns =>
      if c.weightedTurns.Some? then b.pct * c.weightedTurns.value as real == usage.weightedTurns as real
      else c.turns.Some? && b.pct * c.turns.value as real == usage.turns as real
    case Tokens =>
      if c.weightedTokens.Some? then b.pct * c.weightedTokens.value as real == usage.weightedTokens as real
      else c.tokens.Some? && b.pct * c.tokens.value as real == usage.tokens as real
  }

  function Place(limiter: Limiter): nat
  {
    match limiter case Workers => 0 case Turns => 1 case Tokens => 2
  }

  lemma RatioExactly(used: int, capacity: int, pct: real)
    requires capacity > 0
    ensures pct == Ratio(used, capacity) <==> pct * capacity as real == used as real
  {
  }

  /** The ratios compared are exactly these, workers before turns before tokens. */
  lemma RatiosExactly(usage: Usage, c: Capacity)
    requires ValidCapacity(c)
    ensures forall b :: b in Ratios(usage, c) <==> TakesPart(b, usage, c)
    ensures forall i, j :: 0 <= i < j < |Ratios(usage, c)| ==>
              Place(Ratios(usage, c)[i].limiter) < Place(Ratios(usage, c)[j].limiter)
  {
    forall b ensures b in Ratios(usage, c) <==> TakesPart(b, usage, c) {
      OneRatio(b, usage, c);
    }
  }

  lemma OneRatio(b: Binding, usage: Usage, c: Capacity)
    requires ValidCapacity(c)
    ensures b in Ratios(usage, c) <==> TakesPart(b, usage, c)
  {
    match b.limiter
    case Workers => WorkerTakesPart(b, usage, c);
    case Turns => TurnsTakePart(b, usage, c);
    case Tokens => TokensTakePart(b, usage, c);
  }

  lemma WorkerTakesPart(b: Binding, usage: Usage, c: Capacity)
    requires ValidCapacity(c) && b.limiter == Workers
    ensures b in Ratios(usage, c) <==> b in WorkerRatios(usage, c)
    ensures b in WorkerRatios(usage, c) <==> TakesPart(b, usage, c)
  {
    if c.workerCount.Some? { RatioExactly(usage.workerCount, c.workerCount.value, b.pct); }
  }

  lemma TurnsTakePart(b: Binding, usage: Usage, c: Capacity)
    requires ValidCapacity(c) && b.limiter == Turns
    ensures b in Ratios(usage, c) <==> b in TurnRatios(usage, c)
    ensures b in TurnRatios(usage, c) <==> TakesPart(b, usage, c)
  {
    if c.weightedTurns.Some? {
      RatioExactly(usage.weightedTurns, c.weightedTurns.value, b.pct);
    } else if c.turns.Some? {
      RatioExactly(usage.turns, c.turns.value, b.pct);
    }
  }

  lemma TokensTakePart(b: Binding, usage: Usage, c: Capacity)
    requires ValidCapacity(c) && b.limiter == Tokens
    ensures b in Ratios(usage, c) <==> b in TokenRatios(usage, c)
    ensures b in TokenRatios(usage, c) <==> TakesPart(b, usage, c)
  {
    if c.weightedTokens.Some? {
      RatioExactly(usage.weightedTokens, c.weightedTokens.value, b.pct);
    } else if c.tokens.Some? {
      RatioExactly(usage.tokens, c.tokens.value, b.pct);
    }
  }

  /** The first of the largest ratios. */
  function Highest(ratios: seq<Binding>): (b: Binding)
    requires ratios != []
    ensures b in ratios && forall i :: 0 <= i < |ratios| ==> ratios[i].pct <= b.pct
  {
    if |ratios| == 1 then ratios[0]
    else
      var best := Highest(ratios[..|ratios| - 1]);
      var last := ratios[|ratios| - 1];
      assert ratios == ratios[..|ratios| - 1] + [last];
      if last.pct > best.pct then last else best
  }

  /** Of equal ratios the one listed first is the highest. */
  lemma {:induction false} HighestIsFirst(ratios: seq<Binding>) returns (k: nat)
    requires ratios != []
    ensures k < |ratios| && ratios[k] == Highest(ratios)
    ensures forall i :: 0 <= i < k ==> ratios[i].pct < ratios[k].pct
  {
    var n := |ratios| - 1;
    if n == 0 {
      k := 0;
    } else {
      k := HighestIsFirst(ratios[..n]);
      assert ratios[..n][k] == ratios[k];
      if ratios[n].pct > ratios[k].pct {
        assert forall i :: 0 <= i < n ==> ratios[..n][i].pct <= ratios[k].pct && ratios[..n][i] == ratios[i];
        k := n;
      }
    }
  }

  function Clamp(x: real): real
  {
    if x < 0.0 then 0.0 else if x > 1.0 then 1.0 else x
  }

  function Pressure(usage: Usage, c: Capacity): real
    requires ValidCapacity(c)
  {
    if c.confidence == Unknown || Ratios(usage, c) == [] then 0.0 else Clamp(Highest(Ratios(usage, c)).pct)
  }

  method ListRatios(usage: Usage, c: Capacity) returns (ratios: seq<Binding>)
    requires ValidCapacity(c)
    ensures ratios == Ratios(usage, c)
  {
    ratios := [];
    if c.workerCount.Some? {
      ratios := ratios + [Binding(Workers, Ratio(usage.workerCount, c.workerCount.value))];
    }
    assert ratios == WorkerRatios(usage, c);
    if c.weightedTurns.Some? {
      ratios := ratios + [Binding(Turns, Ratio(usage.weightedTurns, c.weightedTurns.value))];
    } else if c.turns.Some? {
      ratios := ratios + [Binding(Turns, Ratio(usage.turns, c.turns.value))];
    }
    assert ratios == WorkerRatios(usage, c) + TurnRatios(usage, c);
    if c.weightedTokens.Some? {
      ratios := ratios + [Binding(Tokens, Ratio(usage.weightedTokens, c.weightedTokens.value))];
    } else if c.tokens.Some? {
      ratios := ratios + [Binding(Tokens, Ratio(usage.tokens, c.tokens.value))];
    }
  }

  method OauthBudgetPressure(usage: Usage, c: Capacity) returns (pct: real, limiter: Option<Limiter>)
    requires ValidCapacity(c)
    ensures pct == Pressure(usage, c) && 0.0 <= pct <= 1.0
    ensures limiter.Some? <==> c.confidence != Unknown && Ratios(usage, c) != []
    ensures limiter.Some? ==> var b := Highest(Ratios(usage, c)); limiter == Some(b.limiter) && pct == Clamp(b.pct)
    ensures limiter.Some? ==>
              var p := Highest(Ratios(usage, c)).pct;
              (0.0 <= p <= 1.0 ==> pct == p) && (p > 1.0 ==> pct == 1.0) && (p < 0.0 ==> pct == 0.0)
    ensures limiter.None? ==> pct == 0.0
  {
    if c.confidence == Unknown {
      return 0.0, None;
    }
    var ratios := ListRatios(usage, c);
    if |ratios| == 0 {
      return 0.0, None;
    }
    var binding := Highest(ratios);
    pct, limiter := Clamp(binding.pct), Some(binding.limiter);
  }

  /** Componentwise at most as much usage. */
  predicate AtMost(a: Usage, b: Usage)
  {
    a.workerCount <= b.workerCount && a.turns <= b.turns && a.tokens <= b.tokens &&
    a.weightedTurns <= b.weightedTurns && a.weightedTokens <= b.weightedTokens
  }

  lemma RatioMonotone(x: int, y: int, capacity: int)
    requires x <= y && capacity > 0
    ensures Ratio(x, capacity) <= Ratio(y, capacity)
  {
  }

  lemma RatiosMonotone(a: Usage, b: Usage, c: Capacity)
    requires ValidCapacity(c) && AtMost(a, b)
    ensures |Ratios(a, c)| == |Ratios(b, c)|
    ensures forall i :: 0 <= i < |Ratios(a, c)| ==> Ratios(a, c)[i].pct <= Ratios(b, c)[i].pct
  {
    if c.workerCount.Some? { RatioMonotone(a.workerCount, b.workerCount, c.workerCount.value); }
    if c.weightedTurns.Some? { RatioMonotone(a.weightedTurns, b.weightedTurns, c.weightedTurns.value); }
    if c.turns.Some? { RatioMonotone(a.turns, b.turns, c.turns.value); }
    if c.weightedTokens.Some? { RatioMonotone(a.weightedTokens, b.weightedTokens, c.weightedTokens.value); }
    if c.tokens.Some? { RatioMonotone(a.tokens, b.tokens, c.tokens.value); }
  }

  /** More usage never lowers the pressure. */
  lemma PressureMonotone(a: Usage, b: Usage, c: Capacity)
    requires ValidCapacity(c) && AtMost(a, b)
    ensures Pressure(a, c) <= Pressure(b, c)
  {
    RatiosMonotone(a, b, c);
    if Ratios(a, c) != [] {
      var top := Highest(Ratios(a, c));
      var i :| 0 <= i < |Ratios(a, c)| && Ratios(a, c)[i] == top;
      assert Ratios(b, c)[i].pct <= Highest(Ratios(b, c)).pct;
    }
  }

  lemma NonNegativeProduct(n: nat, weight: real)
    requires weight >= 0.0
    ensures n as real * weight >= 0.0
  {
  }

  lemma OneMoreRow(rows: seq<WorkerUsageRow>, r: WorkerUsageRow)
    ensures AtMost(UsageOf(rows), UsageOf(rows + [r]))
  {
    assert (rows + [r])[..|rows|] == rows;
    NonNegativeProduct(r.turns, ModelWeight(r.model));
    NonNegativeProduct(r.inputTokens + r.outputTokens, ModelWeight(r.model));
  }

  lemma {:induction false} MoreRowsMoreUsage(rows: seq<WorkerUsageRow>, extra: seq<WorkerUsageRow>)
    ensures AtMost(UsageOf(rows), UsageOf(rows + extra))
    decreases extra
  {
    if extra == [] {
      assert rows + extra == rows;
    } else {
      OneMoreRow(rows, extra[0]);
      MoreRowsMoreUsage(rows + [extra[0]], extra[1..]);
      assert rows + [extra[0]] + extra[1..] == rows + extra;
    }
  }

  /**
   From workers to tiers: further work in the window never routes a task to a higher tier, and a task
   that is not paused runs at or above its role's floor.
   */
  lemma MoreWorkNeverRaisesTier(rows: seq<WorkerUsageRow>, extra: seq<WorkerUsageRow>, c: Capacity,
                                input: ModelRouter.RouterInput)
    requires ValidCapacity(c)
    ensures var before := input.(dailyBudgetPct := Pressure(UsageOf(rows), c));
            var after := input.(dailyBudgetPct := Pressure(UsageOf(rows + extra), c));
            ModelRouter.RoutedRank(after) <= ModelRouter.RoutedRank(before)
  {
    MoreRowsMoreUsage(rows, extra);
    PressureMonotone(UsageOf(rows), UsageOf(rows + extra), c);
    var before := input.(dailyBudgetPct := Pressure(UsageOf(rows), c));
    ModelRouter.PressureLowersTier(before, Pressure(UsageOf(rows + extra), c));
  }
}
