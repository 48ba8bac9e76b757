/** Model routing at claim time: a baseline tier, lowered under pressure and held above a role's floor. */
module ModelRouter {
  import opened Options

  datatype Tier = Haiku | Sonnet | Opus

  datatype Kind = Coordination | Engineering | Research | Writing | Design | Analysis | Observation

  datatype Complexity = Simple | Normal | Complex

  datatype Floor = Inherit | Pinned(tier: Tier)

  datatype Model = Explicit(id: string) | Alias(tier: Tier) | Paused

  datatype Reason = ExplicitOverride | Baseline | BudgetDownshift | SpikeDownshift | RoleFloorClamp | PausedReason

  datatype RouterInput = RouterInput(
    explicitModel: Option<string>,
    kind: Option<Kind>,
    complexity: Option<Complexity>,
    roleFloor: Option<Floor>,
    dailyBudgetPct: real,
    recentClaimCount: int,
    spikeThreshold: int,
    priority: int)

  datatype RouterDecision = RouterDecision(model: Model, reason: Reason, downshifted: bool, baseline: Tier)

  function BaselineTier(kind: Kind, complexity: Complexity): Tier
  {
    match kind
    case Coordination => if complexity.Complex? then Opus else Sonnet
    case Engineering => (match complexity case Simple => Haiku case Normal => Sonnet case Complex => Opus)
    case Research => if complexity.Simple? then Haiku else Sonnet
    case Writing => if complexity.Simple? then Haiku else Sonnet
    case Design => if complexity.Simple? then Sonnet else Opus
    case Analysis => if complexity.Simple? then Haiku else Sonnet
    case Observation => Haiku
  }

  /** The position of a tier in the order haiku, sonnet, opus. */
  function Index(tier: Tier): nat
  {
    match tier case Haiku => 0 case Sonnet => 1 case Opus => 2
  }

  function AtIndex(i: int): Tier
  {
    if i <= 0 then Haiku else if i == 1 then Sonnet else Opus
  }

  function Downshift(tier: Tier): Tier
  {
    AtIndex(if Index(tier) - 1 > 0 then Index(tier) - 1 else 0)
  }

  predicate IsHigherOrEqual(a: Tier, b: Tier)
  {
    Index(a) >= Index(b)
  }

  predicate Sheddable(kind: Kind)
  {
    kind == Engineering || kind == Writing || kind == Analysis
  }

  function KindOf(input: RouterInput): Kind
  {
    match input.kind case Some(k) => k case None => Engineering
  }

  function BaselineOf(input: RouterInput): Tier
  {
    BaselineTier(KindOf(input), match input.complexity case Some(c) => c case None => Normal)
  }

  /** The steps below the baseline that pressure demands; None means the task waits. */
  function PressureSteps(input: RouterInput): Option<nat>
  {
    var kind, pct := KindOf(input), input.dailyBudgetPct;
    if pct >= 0.95 then
      if kind == Coordination then Some(if BaselineOf(input) == Opus then 1 else 0)
      else if input.priority > 0 then Some(1) else None
    else if pct >= 0.9 then Some(if kind == Coordination then 0 else 1)
    else if pct >= 0.7 && Sheddable(kind) then Some(1)
    else if input.recentClaimCount > input.spikeThreshold && Sheddable(kind) then Some(1)
    else Some(0)
  }

  /** The tier that pressure leaves, as a rank: 0 for a pause, then haiku, sonnet, opus. */
  function PressedRank(input: RouterInput): nat
  {
    match PressureSteps(input)
    case None => 0
    case Some(steps) =>
      var down := Index(BaselineOf(input)) as int - steps;
      if down > 0 then down + 1 else 1
  }

  function FloorRank(input: RouterInput): nat
  {
    match input.roleFloor
    case Some(Pinned(floor)) => Index(floor) + 1
    case _ => 0
  }

  /** The routed tier as a rank: what pressure leaves, but not below the floor unless it is a pause. */
  function RoutedRank(input: RouterInput): nat
  {
    var pressed := PressedRank(input);
    if 0 < pressed < FloorRank(input) then FloorRank(input) else pressed
  }

  predicate HasOverride(input: RouterInput)
  {
    input.explicitModel.Some? && input.explicitModel.value != ""
  }

  /** The budget has the word over a kind of task: everything from 95%, then ever fewer kinds. */
  predicate BudgetSpeaks(input: RouterInput)
  {
    || input.dailyBudgetPct >= 0.95
    || (input.dailyBudgetPct >= 0.9 && KindOf(input) != Coordination)
    || (input.dailyBudgetPct >= 0.7 && Sheddable(KindOf(input)))
  }

  predicate SpikeSpeaks(input: RouterInput)
  {
    input.recentClaimCount > input.spikeThreshold && Sheddable(KindOf(input))
  }

  /** A reason given for a routed tier. The floor outranks the budget, and the budget the spike. */
  ghost predicate Justified(input: RouterInput, reason: Reason)
  {
    match reason
    case ExplicitOverride => HasOverride(input)
    case PausedReason => PressedRank(input) == 0
    case RoleFloorClamp => 0 < PressedRank(input) < FloorRank(input)
    case BudgetDownshift => PressedRank(input) >= FloorRank(input) && PressedRank(input) > 0 && BudgetSpeaks(input)
    case SpikeDownshift =>
      PressedRank(input) >= FloorRank(input) && !BudgetSpeaks(input) && SpikeSpeaks(input)
    case Baseline =>
      RoutedRank(input) == Index(BaselineOf(input)) + 1 && !BudgetSpeaks(input) && !SpikeSpeaks(input)
  }

  function Rank(model: Model): nat
    requires !model.Explicit?
  {
    match model case Paused => 0 case Alias(tier) => Index(tier) + 1
  }

  method ResolveEffectiveModel(input: RouterInput) returns (d: RouterDecision)
    ensures HasOverride(input) ==> d == RouterDecision(Explicit(input.explicitModel.value), ExplicitOverride, false, Opus)
    ensures !HasOverride(input) ==>
              && !d.model.Explicit? && Rank(d.model) == RoutedRank(input)
              && d.baseline == BaselineOf(input)
              && d.downshifted == (Rank(d.model) < Index(d.baseline) + 1)
              && (d.reason == PausedReason <==> d.model == Paused)
    ensures Justified(input, d.reason)
  {
    if HasOverride(input) {
      return RouterDecision(Explicit(input.explicitModel.value), ExplicitOverride, false, Opus);
    }
    var kind := KindOf(input);
    var baseline := BaselineOf(input);
    var tier := baseline;
    var reason := Baseline;
    if input.dailyBudgetPct >= 0.95 {
      if kind == Coordination {
        tier := Sonnet;
        reason := BudgetDownshift;
      } else if input.priority > 0 {
        tier := Downshift(tier);
        reason := BudgetDownshift;
      } else {
        return RouterDecision(Paused, PausedReason, true, baseline);
      }
    } else if input.dailyBudgetPct >= 0.9 {
      if kind != Coordination {
        tier := Downshift(tier);
        reason := BudgetDownshift;
      }
    } else if input.dailyBudgetPct >= 0.7 {
      if kind == Engineering || kind == Writing || kind == Analysis {
        tier := Downshift(tier);
        reason := BudgetDownshift;
      }
    }
    if reason == Baseline && input.recentClaimCount > input.spikeThreshold {
      if kind == Engineering || kind == Writing || kind == Analysis {
        tier := Downshift(tier);
        reason := SpikeDownshift;
      }
    }
    if input.roleFloor.Some? && input.roleFloor.value.Pinned? {
      if !IsHigherOrEqual(tier, input.roleFloor.value.tier) {
        tier := input.roleFloor.value.tier;
        reason := RoleFloorClamp;
      }
    }
    d := RouterDecision(Alias(tier), reason, Index(tier) < Index(baseline), baseline);
  }

  // What is decided, in terms of the request.

  /** Haiku stands below sonnet, and sonnet below opus. */
  lemma TiersInOrder()
    ensures Index(Haiku) < Index(Sonnet) < Index(Opus)
  {
  }

  /** The baseline: a request without a kind is engineering, one without a complexity is normal. */
  lemma BaselineExactly(input: RouterInput)
    ensures var kind := if input.kind.Some? then input.kind.value else Engineering;
            var simple, complex := input.complexity == Some(Simple), input.complexity == Some(Complex);
            && KindOf(input) == kind
            && (BaselineOf(input) == Opus <==>
                  (kind == Design && !simple) || (kind in {Coordination, Engineering} && complex))
            && (BaselineOf(input) == Haiku <==>
                  kind == Observation || (kind in {Engineering, Research, Writing, Analysis} && simple))
  {
  }

  /** A harder task of a kind never has a lower baseline. */
  lemma HarderIsNotLower(kind: Kind)
    ensures Index(BaselineTier(kind, Simple)) <= Index(BaselineTier(kind, Normal)) <= Index(BaselineTier(kind, Complex))
  {
  }

  /**
   Pressure takes one tier off: from engineering, writing and analysis from 70% of the budget on or during a
   spike, from everything but coordination from 90% on, and from coordination on opus from 95% on.
   */
  ghost predicate Lowered(input: RouterInput)
  {
    var kind, pct := KindOf(input), input.dailyBudgetPct;
    || (kind in {Engineering, Writing, Analysis} && (pct >= 0.7 || input.recentClaimCount > input.spikeThreshold))
    || (kind != Coordination && pct >= 0.9)
    || (kind == Coordination && pct >= 0.95 && BaselineOf(input) == Opus)
  }

  /** The tier of a task that does not wait: the baseline, lowered by one or not, held at haiku and at the floor. */
  lemma RoutedExactly(input: RouterInput, tier: Tier)
    requires RoutedRank(input) > 0
    ensures RoutedRank(input) == Index(tier) + 1 <==>
              var down := Index(BaselineOf(input)) - if Lowered(input) then 1 else 0;
              var held := if down < 0 then 0 else down;
              var floor := if input.roleFloor.Some? && input.roleFloor.value.Pinned?
                           then Index(input.roleFloor.value.tier) else 0;
              Index(tier) == if held < floor then floor else held
  {
  }

  /** More pressure never routes a task to a higher tier; a pause ranks below every tier. */
  lemma PressureLowersTier(input: RouterInput, pct: real)
    requires input.dailyBudgetPct <= pct
    ensures RoutedRank(input.(dailyBudgetPct := pct)) <= RoutedRank(input)
  {
  }

  /** A spike of claims never routes a task to a higher tier. */
  lemma SpikeLowersTier(input: RouterInput, claims: int)
    requires input.recentClaimCount <= claims
    ensures RoutedRank(input.(recentClaimCount := claims)) <= RoutedRank(input)
  {
  }

  /** The reason given is the only one that is justified. */
  lemma OneReason(input: RouterInput, a: Reason, b: Reason)
    requires !HasOverride(input) && Justified(input, a) && Justified(input, b)
    ensures a == b
  {
  }

  /** Unless paused, a task never runs below its role's floor. */
  lemma FloorHolds(input: RouterInput, floor: Tier)
    requires input.roleFloor == Some(Pinned(floor))
    ensures RoutedRank(input) == 0 || RoutedRank(input) >= Index(floor) + 1
  {
  }

  /** A task waits exactly when the budget is nearly spent, it is not coordination and has no priority. */
  lemma PausesExactly(input: RouterInput)
    ensures RoutedRank(input) == 0 <==>
            input.dailyBudgetPct >= 0.95 && KindOf(input) != Coordination && input.priority <= 0
  {
  }
}
