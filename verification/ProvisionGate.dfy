/**
 The provision gate: it runs the steps of a declared manifest before an agent starts, and remembers a pass
 for ten minutes under the base commit and the manifest's hash.
 */
module ProvisionGate {
  import opened Options
  import opened StepRunner
  import opened Strings

  const GATE_CACHE_TTL_MS: int := 10 * 60 * 1000

  // ---------------------------------------------------------------- the gate

  datatype Resolved = Declared(manifest: Manifest) | AutoDetected(manifest: Manifest) | NoManifest

  /** The tree a gate runs in: a clean checkout of a commit, or something nobody pinned. */
  datatype Tree = CheckoutOf(commit: string) | Unpinned(id: nat)

  /** How commands end in each tree; they may change the tree, so the commands run before count. */
  type World = (Tree, seq<Invocation>, Invocation) -> Outcome

  /** A call of the gate. An empty commit is one the caller did not give; id then tells the trees apart. */
  datatype Call = Call(resolved: Resolved, commit: string, id: nat, skip: set<Phase>, env: Env)

  datatype FailureCode = ToolchainMissing | InstallFailed | EnvMissing | SetupFailed | ReadinessFailed
  datatype Failure = Failure(code: FailureCode, phase: Phase, message: Message)

  datatype GateResult = GateResult(
    enforced: bool, ok: bool, steps: seq<StepResult>, failure: Option<Failure>, cached: bool)

  function CodeOf(phase: Phase): FailureCode
  {
    match phase
    case Toolchain => ToolchainMissing
    case Install => InstallFailed
    case EnvVars => EnvMissing
    case Provision => SetupFailed
    case Readiness => ReadinessFailed
  }

  function TreeOf(call: Call): Tree
  {
    if call.commit != "" then CheckoutOf(call.commit) else Unpinned(call.id)
  }

  function RunnerIn(world: World, tree: Tree): Runner
  {
    (ran, invocation) => world(tree, ran, invocation)
  }

  function FirstFail(results: seq<StepResult>): Option<StepResult>
  {
    if results == [] then None
    else if results[0].status == Fail then Some(results[0]) else FirstFail(results[1..])
  }

  /** The answer of a gate that has no cache. */
  function Fresh(call: Call, world: World): GateResult
  {
    if !call.resolved.Declared? then GateResult(false, true, [], None, false)
    else
      var results := Executed(Plan(call.resolved.manifest), call.skip, call.env, RunnerIn(world, TreeOf(call))).results;
      var bad := FirstFail(results);
      GateResult(true, bad.None?, results,
                 if bad.None? then None
                 else Some(Failure(CodeOf(bad.value.phase), bad.value.phase, bad.value.message)), false)
  }

  predicate Cacheable(call: Call)
  {
    call.resolved.Declared? && call.commit != "" && call.resolved.manifest.required == []
  }

  function CacheKey(call: Call, hash: Manifest -> string): string
    requires call.resolved.Declared?
  {
    call.commit + "\0" + hash(call.resolved.manifest)
  }

  type GateCache = map<string, int>

  predicate Hit(cache: GateCache, call: Call, hash: Manifest -> string, now: int)
  {
    Cacheable(call) && CacheKey(call, hash) in cache && now - cache[CacheKey(call, hash)] < GATE_CACHE_TTL_MS
  }

  const SERVED: GateResult := GateResult(true, true, [], None, true)

  function AfterRun(cache: GateCache, call: Call, hash: Manifest -> string, ok: bool, now: int): GateCache
  {
    if Cacheable(call) && ok then cache[CacheKey(call, hash) := now] else cache
  }

  method FindFail(results: seq<StepResult>) returns (bad: Option<StepResult>)
    ensures bad == FirstFail(results)
    ensures bad.None? <==> forall i :: 0 <= i < |results| ==> results[i].status != Fail
  {
    var i := 0;
    while i < |results|
      invariant 0 <= i <= |results|
      invariant FirstFail(results) == FirstFail(results[i..])
      invariant forall j :: 0 <= j < i ==> results[j].status != Fail
    {
      if results[i].status == Fail {
        return Some(results[i]);
      }
      i := i + 1;
    }
    return None;
  }

  class WarmGate {
    var gateCache: GateCache

    constructor ()
      ensures gateCache == map[]
    {
      gateCache := map[];
    }

    method ClearProvisionGateCache()
      modifies this
      ensures gateCache == map[]
    {
      gateCache := map[];
    }

    /** What happens before the gate first waits: the warm answer, if there is one. */
    method Lookup(call: Call, hash: Manifest -> string, now: int) returns (served: Option<GateResult>)
      ensures served == if Hit(gateCache, call, hash, now) then Some(SERVED) else None
    {
      if !call.resolved.Declared? {
        return None;
      }
      if call.commit != "" && call.resolved.manifest.required == [] {
        var key := CacheKey(call, hash);
        if key in gateCache && now - gateCache[key] < GATE_CACHE_TTL_MS {
          return Some(GateResult(true, true, [], None, true));
        }
      }
      return None;
    }

    /** The real run, and what it leaves in the cache when it ends at now. */
    method RunFresh(call: Call, world: World, hash: Manifest -> string, now: int) returns (r: GateResult)
      requires call.resolved.Declared?
      modifies this
      ensures r == Fresh(call, world)
      ensures gateCache == AfterRun(old(gateCache), call, hash, r.ok, now)
    {
      var steps := PlanSteps(call.resolved.manifest);
      var results, ran := ExecuteSteps(steps, call.skip, call.env, RunnerIn(world, TreeOf(call)));
      var firstFail := FindFail(results);
      var ok := firstFail.None?;
      if call.commit != "" && call.resolved.manifest.required == [] && ok {
        gateCache := gateCache[CacheKey(call, hash) := now];
      }
      return GateResult(true, ok, results,
        if firstFail.None? then None
        else Some(Failure(CodeOf(firstFail.value.phase), firstFail.value.phase, firstFail.value.message)), false);
    }

    /** A call that nothing else interrupts. */
    method RunProvisionGate(call: Call, world: World, hash: Manifest -> string, now: int, done: int)
      returns (r: GateResult)
      modifies this
      ensures r == if Hit(old(gateCache), call, hash, now) then SERVED else Fresh(call, world)
      ensures gateCache == if r == SERVED then old(gateCache)
                           else AfterRun(old(gateCache), call, hash, r.ok, done)
    {
      if !call.resolved.Declared? {
        return GateResult(false, true, [], None, false);
      }
      var served := Lookup(call, hash, now);
      if served.Some? {
        return served.value;
      }
      r := RunFresh(call, world, hash, done);
    }
  }

  // ---------------------------------------------------------------- what a fresh answer means

  lemma {:induction false} FirstFailIsFirst(results: seq<StepResult>)
    ensures FirstFail(results).None? <==> forall i :: 0 <= i < |results| ==> results[i].status != Fail
    ensures FirstFail(results).Some? ==>
              exists f: nat :: f < |results| && results[f].status == Fail && FirstFail(results) == Some(results[f])
  {
    if results != [] {
      FirstFailIsFirst(results[1..]);
      assert forall i :: 0 < i < |results| ==> results[i] == results[1..][i - 1];
      if results[0].status == Fail {
        assert FirstFail(results) == Some(results[0]);
      } else if FirstFail(results).Some? {
        var f: nat :| f < |results[1..]| && results[1..][f].status == Fail &&
                      FirstFail(results[1..]) == Some(results[1..][f]);
        assert results[f + 1] == results[1..][f];
      }
    }
  }

  /** A declared gate passes exactly when every wanted step does; then, and only then, no failure is reported. */
  lemma FreshPassesExactly(call: Call, world: World)
    requires call.resolved.Declared?
    ensures var steps := Plan(call.resolved.manifest);
            Fresh(call, world).ok <==> AllPass(steps, call.skip, call.env, RunnerIn(world, TreeOf(call)), |steps|)
    ensures Fresh(call, world).ok <==> Fresh(call, world).failure.None?
  {
    var steps := Plan(call.resolved.manifest);
    var run := RunnerIn(world, TreeOf(call));
    var t := Executed(steps, call.skip, call.env, run);
    ExecutedExactly(steps, call.skip, call.env, run);
    FirstFailIsFirst(t.results);
    forall f: nat | f < |steps|
      ensures t.results[f].status == Fail <==> FailsFirst(steps, call.skip, call.env, run, f)
    {
      assert Judged(steps, call.skip, call.env, run, f, t.results[f]);
    }
  }

  /** Each phase has its own failure code. */
  ghost predicate Names(failure: Failure)
  {
    && (failure.phase == Toolchain <==> failure.code == ToolchainMissing)
    && (failure.phase == Install <==> failure.code == InstallFailed)
    && (failure.phase == EnvVars <==> failure.code == EnvMissing)
    && (failure.phase == Provision <==> failure.code == SetupFailed)
    && (failure.phase == Readiness <==> failure.code == ReadinessFailed)
  }

  lemma FreshBlames(call: Call, world: World) returns (f: nat)
    requires call.resolved.Declared? && !Fresh(call, world).ok
    ensures var steps := Plan(call.resolved.manifest);
            f < |steps| && FailsFirst(steps, call.skip, call.env, RunnerIn(world, TreeOf(call)), f) &&
            Fresh(call, world).failure.Some? && Fresh(call, world).failure.value.phase == steps[f].phase
  {
    var steps := Plan(call.resolved.manifest);
    var run := RunnerIn(world, TreeOf(call));
    var t := Executed(steps, call.skip, call.env, run);
    FirstFailIsFirst(t.results);
    f :| f < |t.results| && t.results[f].status == Fail && FirstFail(t.results) == Some(t.results[f]);
    ExecutedExactly(steps, call.skip, call.env, run);
    assert Judged(steps, call.skip, call.env, run, f, t.results[f]);
  }

  /** Its code is that of the phase, and its message that of the step that failed. */
  lemma FreshNames(call: Call, world: World)
    requires call.resolved.Declared? && !Fresh(call, world).ok
    ensures Fresh(call, world).failure.Some? && Names(Fresh(call, world).failure.value)
    ensures var r := Fresh(call, world);
            exists f: nat :: f < |r.steps| && r.steps[f].status == Fail && r.failure.value.message == r.steps[f].message
  {
    FirstFailIsFirst(Fresh(call, world).steps);
  }

  lemma EarlierPhasePasses(steps: seq<Step>, skip: set<Phase>, env: Env, run: Runner, f: nat, i: nat)
    requires InPhaseOrder(steps) && f < |steps| && FailsFirst(steps, skip, env, run, f)
    requires i < |steps| && steps[i].phase !in skip && Rank(steps[i].phase) < Rank(steps[f].phase)
    ensures Passes(steps, skip, env, run, i)
  {
  }

  /** A gate that blocks blames the earliest phase it can: every wanted step of an earlier phase passes. */
  lemma FreshBlamesEarliestPhase(call: Call, world: World, i: nat)
    requires call.resolved.Declared? && !Fresh(call, world).ok && Fresh(call, world).failure.Some?
    requires i < |Plan(call.resolved.manifest)| && Plan(call.resolved.manifest)[i].phase !in call.skip
    requires Rank(Plan(call.resolved.manifest)[i].phase) < Rank(Fresh(call, world).failure.value.phase)
    ensures Passes(Plan(call.resolved.manifest), call.skip, call.env, RunnerIn(world, TreeOf(call)), i)
  {
    var f := FreshBlames(call, world);
    PlanInPhaseOrder(call.resolved.manifest);
    EarlierPhasePasses(Plan(call.resolved.manifest), call.skip, call.env, RunnerIn(world, TreeOf(call)), f, i);
  }

  // ---------------------------------------------------------------- what a pass proves about the manifest

  /** The manifest without what belongs to the skipped phases. */
  ghost function Left(m: Manifest, skip: set<Phase>): Manifest
  {
    Manifest(if Toolchain in skip then "" else m.runtime, if Install in skip then "" else m.install,
             if EnvVars in skip then [] else m.required, if Provision in skip then [] else m.provision,
             if Readiness in skip then "" else m.readiness, m.readinessSeconds)
  }

  /** Everything a manifest has the gate run, in order. */
  ghost predicate RunsAll(m: Manifest, commands: seq<Invocation>)
  {
    exists tool :: (m.runtime != "" ==> NamesTool(m.runtime, tool)) && commands == Listed(m, tool)
  }

  /** The tool is looked up, then come the install command, each provision command, and the readiness command. */
  ghost function Listed(m: Manifest, tool: string): seq<Invocation>
  {
    ToolLookup(m, tool) + InstallCommand(m) + ProvisionCommands(m.provision) + ReadinessCommand(m)
  }

  ghost function ToolLookup(m: Manifest, tool: string): seq<Invocation>
  {
    if m.runtime == "" then [] else [Invocation("command -v " + tool, 10 * 1000)]
  }

  ghost function InstallCommand(m: Manifest): seq<Invocation>
  {
    if m.install == "" then [] else [Invocation(m.install, 300 * 1000)]
  }

  ghost function ReadinessCommand(m: Manifest): seq<Invocation>
  {
    if m.readiness == "" then []
    else [Invocation(m.readiness, (if m.readinessSeconds == 0 then 180 else m.readinessSeconds) * 1000)]
  }

  function ProvisionCommands(commands: seq<string>): seq<Invocation>
  {
    seq(|commands|, i requires 0 <= i < |commands| => Invocation(commands[i], 60 * 1000))
  }

  /** Every command ends with 0 when it runs after those before it. */
  ghost predicate EndWell(commands: seq<Invocation>, run: Runner)
  {
    forall i :: 0 <= i < |commands| ==> run(commands[..i], commands[i]).code == 0
  }

  lemma {:induction false} SucceedsExactly(commands: seq<Invocation>, run: Runner)
    ensures Succeeds(commands, run) <==> EndWell(commands, run)
  {
    if commands != [] {
      var n := |commands| - 1;
      SucceedsExactly(commands[..n], run);
      assert forall i :: 0 <= i < n ==> commands[..n][..i] == commands[..i];
    }
  }

  lemma {:induction false} CommandsAppend(a: seq<Step>, b: seq<Step>, skip: set<Phase>, n: nat)
    requires n <= |b|
    ensures Commands(a + b, skip, |a| + n) == Commands(a, skip, |a|) + Commands(b, skip, n)
  {
    if n == 0 {
      CommandsPrefix(a, b, skip, |a|);
    } else {
      CommandsAppend(a, b, skip, n - 1);
      assert (a + b)[|a| + n - 1] == b[n - 1];
    }
  }

  lemma {:induction false} CommandsPrefix(a: seq<Step>, b: seq<Step>, skip: set<Phase>, n: nat)
    requires n <= |a|
    ensures Commands(a + b, skip, n) == Commands(a, skip, n)
  {
    if n > 0 { CommandsPrefix(a, b, skip, n - 1); }
  }

  lemma {:induction false} ProvisionIsListed(commands: seq<string>, skip: set<Phase>, n: nat)
    requires n <= |commands|
    ensures Commands(ProvisionSteps(commands), skip, n) ==
            if Provision in skip then [] else ProvisionCommands(commands)[..n]
  {
    if n > 0 { ProvisionIsListed(commands, skip, n - 1); }
  }

  ghost function Wants(steps: seq<Step>, skip: set<Phase>): seq<Invocation>
  {
    Commands(steps, skip, |steps|)
  }

  lemma WantsAppend(a: seq<Step>, b: seq<Step>, skip: set<Phase>)
    ensures Wants(a + b, skip) == Wants(a, skip) + Wants(b, skip)
  {
    CommandsAppend(a, b, skip, |b|);
  }

  lemma WantsOne(steps: seq<Step>, skip: set<Phase>)
    requires |steps| <= 1
    ensures Wants(steps, skip) == if steps == [] || steps[0].phase in skip then [] else Shell(steps[0])
  {
    if steps != [] { assert Commands(steps, skip, 0) == []; }
  }

  ghost function ToolOf(m: Manifest): string
  {
    Trim(BeforeAt(m.runtime))
  }

  lemma ToolIsListed(m: Manifest, skip: set<Phase>)
    ensures Wants(ToolSteps(m), skip) == ToolLookup(Left(m, skip), ToolOf(m))
  {
    WantsOne(ToolSteps(m), skip);
  }

  lemma InstallIsListed(m: Manifest, skip: set<Phase>)
    ensures Wants(InstallSteps(m), skip) == InstallCommand(Left(m, skip))
  {
    WantsOne(InstallSteps(m), skip);
  }

  lemma VarsListNothing(m: Manifest, skip: set<Phase>)
    ensures Wants(EnvSteps(m), skip) == []
  {
    WantsOne(EnvSteps(m), skip);
  }

  lemma ReadinessIsListed(m: Manifest, skip: set<Phase>)
    ensures Wants(ReadinessSteps(m), skip) == ReadinessCommand(Left(m, skip))
  {
    WantsOne(ReadinessSteps(m), skip);
  }

  lemma ProvisionPartIsListed(m: Manifest, skip: set<Phase>)
    ensures Wants(ProvisionSteps(m.provision), skip) == ProvisionCommands(Left(m, skip).provision)
  {
    ProvisionIsListed(m.provision, skip, |m.provision|);
    assert ProvisionCommands(m.provision)[..|m.provision|] == ProvisionCommands(m.provision);
  }

  lemma WantsFive(a: seq<Step>, b: seq<Step>, c: seq<Step>, d: seq<Step>, e: seq<Step>, skip: set<Phase>)
    ensures Wants(a + b + c + d + e, skip) ==
            Wants(a, skip) + Wants(b, skip) + Wants(c, skip) + Wants(d, skip) + Wants(e, skip)
  {
    WantsAppend(a + b + c + d, e, skip);
    WantsAppend(a + b + c, d, skip);
    WantsAppend(a + b, c, skip);
    WantsAppend(a, b, skip);
  }

  /** A plan hands over exactly the commands that the manifest lists outside the skipped phases. */
  lemma PlanIsListed(m: Manifest, skip: set<Phase>)
    ensures Wants(Plan(m), skip) == Listed(Left(m, skip), ToolOf(m))
  {
    var l := Left(m, skip);
    WantsFive(ToolSteps(m), InstallSteps(m), EnvSteps(m), ProvisionSteps(m.provision), ReadinessSteps(m), skip);
    ToolIsListed(m, skip);
    InstallIsListed(m, skip);
    VarsListNothing(m, skip);
    ProvisionPartIsListed(m, skip);
    ReadinessIsListed(m, skip);
    WithoutMiddle(ToolLookup(l, ToolOf(m)), InstallCommand(l), ProvisionCommands(l.provision), ReadinessCommand(l));
  }

  lemma WithoutMiddle(a: seq<Invocation>, b: seq<Invocation>, d: seq<Invocation>, e: seq<Invocation>)
    ensures a + b + [] + d + e == a + b + d + e
  {
  }

  /** The one check for variables is for those that the manifest requires. */
  lemma CheckedVars(m: Manifest, i: nat)
    requires i < |Plan(m)|
    ensures Plan(m)[i].EnvCheck? ==> Plan(m)[i].vars == m.required && Plan(m)[i].phase == EnvVars
  {
    PlanExactly(m);
    assert Asked(m, Plan(m)[i]);
  }

  lemma VarsAreChecked(m: Manifest) returns (i: nat)
    requires m.required != []
    ensures i < |Plan(m)| && Plan(m)[i].EnvCheck?
  {
    PlanExactly(m);
    i :| 0 <= i < |Plan(m)| && Plan(m)[i].phase == EnvVars;
    assert Asked(m, Plan(m)[i]);
  }

  lemma PlanVars(m: Manifest, skip: set<Phase>, env: Env)
    ensures VarsSet(Plan(m), skip, env, |Plan(m)|) <==> forall v :: v in Left(m, skip).required ==> IsSet(env, v)
  {
    forall i: nat | i < |Plan(m)|
      ensures Plan(m)[i].EnvCheck? ==> Plan(m)[i].vars == m.required && Plan(m)[i].phase == EnvVars
    {
      CheckedVars(m, i);
    }
    if m.required != [] { var i := VarsAreChecked(m); }
  }

  /**
   A declared gate passes exactly when every variable required outside the skipped phases has a value and every
   command listed outside them ends with 0 when it runs after those before it.
   */
  lemma PassProves(call: Call, world: World)
    requires call.resolved.Declared?
    ensures var m := Left(call.resolved.manifest, call.skip);
            exists commands :: RunsAll(m, commands) &&
              (Fresh(call, world).ok <==>
               (forall v :: v in m.required ==> IsSet(call.env, v)) && EndWell(commands, RunnerIn(world, TreeOf(call))))
  {
    var m, steps, run := call.resolved.manifest, Plan(call.resolved.manifest), RunnerIn(world, TreeOf(call));
    var commands := Wants(steps, call.skip);
    PlanIsListed(m, call.skip);
    ToolIsNamed(m.runtime);
    assert RunsAll(Left(m, call.skip), commands);
    FreshPassesExactly(call, world);
    AllPassExactly(steps, call.skip, call.env, run, |steps|);
    PlanVars(m, call.skip, call.env);
    SucceedsExactly(commands, run);
  }

  // ---------------------------------------------------------------- whole histories

  /**
   What happens to the cache: a call looks it up, a real run ends, or it is cleared. Calls overlap freely,
   so a run may end long after the lookup that started it, with other events in between.
   */
  datatype Event = Looked(call: Call, now: int) | Ended(call: Call, now: int) | Cleared

  ghost function CacheAfter(events: seq<Event>, world: World, hash: Manifest -> string): GateCache
  {
    if events == [] then map[]
    else
      var before := CacheAfter(events[..|events| - 1], world, hash);
      match events[|events| - 1]
      case Looked(_, _) => before
      case Cleared => map[]
      case Ended(call, now) => AfterRun(before, call, hash, Fresh(call, world).ok, now)
  }

  // ---------------------------------------------------------------- which warm answers carry over

  /** The commands a call wants, in order. */
  ghost function Wanted(call: Call): seq<Invocation>
    requires call.resolved.Declared?
  {
    var steps := Plan(call.resolved.manifest);
    Commands(steps, call.skip, |steps|)
  }

  /** Every command succeeds when it comes after the ones before it. */
  ghost predicate Succeeds(commands: seq<Invocation>, run: Runner)
  {
    commands == [] ||
    var n := |commands| - 1;
    Succeeds(commands[..n], run) && run(commands[..n], commands[n]).code == 0
  }

  lemma {:induction false} SucceedsSnoc(commands: seq<Invocation>, last: Invocation, run: Runner)
    ensures Succeeds(commands + [last], run) <==> Succeeds(commands, run) && run(commands, last).code == 0
  {
    var all := commands + [last];
    assert all[..|commands|] == commands && all[|commands|] == last;
  }

  lemma SkippedStepAgrees(steps: seq<Step>, skip: set<Phase>, env: Env, run: Runner, n: nat)
    requires n < |steps| && steps[n].phase in skip
    ensures AllPass(steps, skip, env, run, n + 1) <==> AllPass(steps, skip, env, run, n)
    ensures Commands(steps, skip, n + 1) == Commands(steps, skip, n)
  {
    AllPassStep(steps, skip, env, run, n);
    assert Commands(steps, skip, n) + [] == Commands(steps, skip, n);
  }

  lemma WantedStepSucceeds(steps: seq<Step>, skip: set<Phase>, env: Env, run: Runner, n: nat)
    requires n < |steps| && steps[n].phase !in skip && !steps[n].EnvCheck?
    ensures Succeeds(Commands(steps, skip, n + 1), run) <==>
              Succeeds(Commands(steps, skip, n), run) && Passes(steps, skip, env, run, n)
  {
    SucceedsSnoc(Commands(steps, skip, n), Shell(steps[n])[0], run);
  }

  /** Of the first n steps the wanted checks for variables find them set. */
  ghost predicate VarsSet(steps: seq<Step>, skip: set<Phase>, env: Env, n: nat)
    requires n <= |steps|
  {
    forall i :: 0 <= i < n && steps[i].EnvCheck? && steps[i].phase !in skip ==>
      forall v :: v in steps[i].vars ==> IsSet(env, v)
  }

  ghost predicate PassWithVars(steps: seq<Step>, skip: set<Phase>, env: Env, run: Runner, n: nat)
    requires n <= |steps|
  {
    AllPass(steps, skip, env, run, n) <==> Succeeds(Commands(steps, skip, n), run) && VarsSet(steps, skip, env, n)
  }

  lemma PassWithVarsStep(steps: seq<Step>, skip: set<Phase>, env: Env, run: Runner, n: nat)
    requires n < |steps| && PassWithVars(steps, skip, env, run, n)
    ensures PassWithVars(steps, skip, env, run, n + 1)
  {
    AllPassStep(steps, skip, env, run, n);
    if steps[n].phase in skip {
      SkippedStepAgrees(steps, skip, env, run, n);
    } else if steps[n].EnvCheck? {
      assert Commands(steps, skip, n) + [] == Commands(steps, skip, n);
    } else {
      WantedStepSucceeds(steps, skip, env, run, n);
    }
  }

  lemma PassWithVarsStart(steps: seq<Step>, skip: set<Phase>, env: Env, run: Runner)
    ensures PassWithVars(steps, skip, env, run, 0)
  {
  }

  lemma {:induction false} AllPassExactly(steps: seq<Step>, skip: set<Phase>, env: Env, run: Runner, n: nat)
    requires n <= |steps|
    ensures PassWithVars(steps, skip, env, run, n)
    decreases n
  {
    if n == 0 {
      PassWithVarsStart(steps, skip, env, run);
    } else {
      AllPassExactly(steps, skip, env, run, n - 1);
      PassWithVarsStep(steps, skip, env, run, n - 1);
    }
  }

  lemma FreshMeansSucceeds(call: Call, world: World)
    requires Cacheable(call)
    ensures Fresh(call, world).ok <==> Succeeds(Wanted(call), RunnerIn(world, TreeOf(call)))
  {
    var steps := Plan(call.resolved.manifest);
    FreshPassesExactly(call, world);
    AllPassExactly(steps, call.skip, call.env, RunnerIn(world, TreeOf(call)), |steps|);
    PlanExactly(call.resolved.manifest);
    assert forall i :: 0 <= i < |steps| ==> Asked(call.resolved.manifest, steps[i]);
  }

  ghost predicate IsNext(ran: seq<Invocation>, next: Invocation, commands: seq<Invocation>)
  {
    |ran| < |commands| && ran == commands[..|ran|] && next == commands[|ran|]
  }

  /** A world in which exactly these commands succeed, in this order. */
  ghost function OnlyWorld(commands: seq<Invocation>): World
  {
    (tree, ran, next) => if IsNext(ran, next, commands) then Outcome(0, "") else Outcome(1, "")
  }

  lemma {:induction false} PrefixSucceeds(a: seq<Invocation>, b: seq<Invocation>, run: Runner)
    requires b <= a && Succeeds(a, run)
    ensures Succeeds(b, run)
  {
    if |b| < |a| {
      assert b <= a[..|a| - 1];
      PrefixSucceeds(a[..|a| - 1], b, run);
    } else {
      assert b == a;
    }
  }

  /** In its world a list succeeds, and with it exactly its prefixes. */
  lemma {:induction false} OnlyPrefixesSucceed(commands: seq<Invocation>, b: seq<Invocation>, tree: Tree)
    ensures Succeeds(b, RunnerIn(OnlyWorld(commands), tree)) <==> b <= commands
  {
    if b != [] {
      var n := |b| - 1;
      OnlyPrefixesSucceed(commands, b[..n], tree);
      assert RunnerIn(OnlyWorld(commands), tree)(b[..n], b[n]).code == 0 <==> IsNext(b[..n], b[n], commands);
      assert b == b[..n] + [b[n]];
    }
  }

  /**
   Exactly when a pass of one call is right for another with the same commit and manifest, in every world:
   when the commands the second wants are a prefix of those the first ran. The cache key does not mention
   skipped phases, so the gate itself does not look at this.
   */
  lemma WarmAnswerCarriesOver(a: Call, b: Call)
    requires Cacheable(a) && Cacheable(b) && a.commit == b.commit
    ensures (forall world: World :: Fresh(a, world).ok ==> Fresh(b, world).ok) <==> Wanted(b) <= Wanted(a)
  {
    if Wanted(b) <= Wanted(a) {
      forall world: World | Fresh(a, world).ok
        ensures Fresh(b, world).ok
      {
        FreshMeansSucceeds(a, world);
        FreshMeansSucceeds(b, world);
        PrefixSucceeds(Wanted(a), Wanted(b), RunnerIn(world, TreeOf(a)));
      }
    }
    var world := OnlyWorld(Wanted(a));
    FreshMeansSucceeds(a, world);
    FreshMeansSucceeds(b, world);
    OnlyPrefixesSucceed(Wanted(a), Wanted(a), TreeOf(a));
    OnlyPrefixesSucceed(Wanted(a), Wanted(b), TreeOf(b));
  }

  const INSTALL_ONLY: Manifest := Manifest("", "i", [], [], "", 0)

  lemma InstallOnlyWants(skip: set<Phase>, commit: string)
    ensures var call := Call(Declared(INSTALL_ONLY), commit, 0, skip, map[]);
            Wanted(call) == if Install in skip then [] else [Invocation("i", INSTALL_TIMEOUT_MS)]
  {
    var steps := Plan(INSTALL_ONLY);
    assert steps == [Command(Install, "i", INSTALL_TIMEOUT_MS)];
    assert Commands(steps, skip, 1) == Commands(steps, skip, 0) + if Install in skip then [] else Shell(steps[0]);
  }

  lemma PassIsKept(call: Call, world: World, hash: Manifest -> string)
    requires Cacheable(call) && Fresh(call, world).ok
    ensures CacheAfter([Ended(call, 0)], world, hash) == map[CacheKey(call, hash) := 0]
  {
    var events := [Ended(call, 0)];
    assert events[..0] == [];
  }

  /** A runner that leaves out install is served before one that does not: the second wants more than ran. */
  lemma SkippedInstallLeavesWrongPass(commit: string, hash: Manifest -> string)
    requires commit != ""
    ensures var a := Call(Declared(INSTALL_ONLY), commit, 0, {Install}, map[]);
            var b := Call(Declared(INSTALL_ONLY), commit, 0, {}, map[]);
            exists world: World :: !Fresh(b, world).ok &&
                                   Hit(CacheAfter([Ended(a, 0)], world, hash), b, hash, GATE_CACHE_TTL_MS - 1)
  {
    var a := Call(Declared(INSTALL_ONLY), commit, 0, {Install}, map[]);
    var b := Call(Declared(INSTALL_ONLY), commit, 0, {}, map[]);
    InstallOnlyWants({Install}, commit);
    InstallOnlyWants({}, commit);
    WarmAnswerCarriesOver(a, b);
    var world: World :| Fresh(a, world).ok && !Fresh(b, world).ok;
    PassIsKept(a, world, hash);
    assert Hit(CacheAfter([Ended(a, 0)], world, hash), b, hash, GATE_CACHE_TTL_MS - 1);
  }

  // ---------------------------------------------------------------- every history

  /**
   What is assumed of a run: the hash holds no NUL and tells the run's manifests apart.
   */
  ghost predicate Proper(calls: set<Call>, hash: Manifest -> string)
  {
    && (forall a :: a in calls && a.resolved.Declared? ==> '\0' !in hash(a.resolved.manifest))
    && (forall a, b :: a in calls && b in calls && a.resolved.Declared? && b.resolved.Declared? ==>
          (hash(a.resolved.manifest) == hash(b.resolved.manifest) ==> a.resolved == b.resolved))
  }

  /** Calls for one gate want the same commands, as they do when they skip the same phases. */
  ghost predicate AgreeOnCommands(calls: set<Call>)
  {
    forall a, b :: a in calls && b in calls && SameGate(a, b) ==> Wanted(a) == Wanted(b)
  }

  ghost predicate Within(events: seq<Event>, calls: set<Call>)
  {
    forall e :: e in events && !e.Cleared? ==> e.call in calls
  }

  /** The clock never goes back during the events, and t is not before any of them. */
  ghost predicate ClockRuns(events: seq<Event>, t: int)
  {
    && (forall i :: 0 <= i < |events| && !events[i].Cleared? ==> events[i].now <= t)
    && (forall i, j :: 0 <= i < j < |events| && !events[i].Cleared? && !events[j].Cleared? ==>
                         events[i].now <= events[j].now)
  }

  ghost predicate SameGate(a: Call, b: Call)
  {
    Cacheable(a) && Cacheable(b) && a.commit == b.commit && a.resolved == b.resolved
  }

  /** The event is the end of a real run of the same gate that passed. */
  ghost predicate Passed(event: Event, call: Call, world: World)
  {
    event.Ended? && SameGate(event.call, call) && Fresh(event.call, world).ok
  }

  /** Event j is the last such run, and the cache was not cleared after it. */
  ghost predicate LastPass(events: seq<Event>, j: int, call: Call, world: World)
  {
    && 0 <= j < |events| && Passed(events[j], call, world)
    && forall i :: j < i < |events| ==> !events[i].Cleared? && !Passed(events[i], call, world)
  }

  ghost predicate Warm(events: seq<Event>, call: Call, world: World, now: int)
  {
    exists j :: LastPass(events, j, call, world) && now - events[j].now < 10 * 60 * 1000
  }

  /** Event j is such a run less than ten minutes before now, and the cache was not cleared after it. */
  ghost predicate WarmSince(events: seq<Event>, j: int, call: Call, world: World, now: int)
  {
    && 0 <= j < |events| && Passed(events[j], call, world) && now - events[j].now < 10 * 60 * 1000
    && forall i :: j < i < |events| ==> !events[i].Cleared?
  }

  lemma NulSplits(a: string, restA: string, b: string, restB: string)
    requires a + "\0" + restA == b + "\0" + restB
    ensures |a| < |b| ==> '\0' in restA
    ensures |a| == |b| ==> a == b && restA == restB
  {
    var k := a + "\0" + restA;
    assert b == k[..|b|] && restB == k[|b| + 1..];
    assert a == k[..|a|] && restA == k[|a| + 1..];
    if |a| < |b| { assert restA[|b| - |a| - 1] == k[|b|]; }
  }

  /** Equal keys mean one commit and one manifest. */
  lemma KeysAreDistinct(a: Call, b: Call, calls: set<Call>, hash: Manifest -> string)
    requires Proper(calls, hash) && a in calls && b in calls && Cacheable(a) && Cacheable(b)
    ensures CacheKey(a, hash) == CacheKey(b, hash) <==> SameGate(a, b)
  {
    if CacheKey(a, hash) == CacheKey(b, hash) {
      NulSplits(a.commit, hash(a.resolved.manifest), b.commit, hash(b.resolved.manifest));
      NulSplits(b.commit, hash(b.resolved.manifest), a.commit, hash(a.resolved.manifest));
    }
  }

  lemma LastPassSnoc(events: seq<Event>, j: int, call: Call, world: World)
    requires 0 <= j < |events| - 1
    ensures var last := events[|events| - 1];
            LastPass(events, j, call, world) <==>
              !last.Cleared? && !Passed(last, call, world) && LastPass(events[..|events| - 1], j, call, world)
  {
    var before := events[..|events| - 1];
    assert forall i :: 0 <= i < |before| ==> before[i] == events[i];
  }

  /** An event that is no such run keeps or, clearing, ends what was warm. */
  lemma WarmStays(events: seq<Event>, call: Call, world: World, now: int)
    requires events != [] && !Passed(events[|events| - 1], call, world)
    ensures var n := |events| - 1;
            Warm(events, call, world, now) <==> !events[n].Cleared? && Warm(events[..n], call, world, now)
  {
    var n := |events| - 1;
    var before := events[..n];
    forall j | 0 <= j < n
      ensures LastPass(events, j, call, world) <==> !events[n].Cleared? && LastPass(before, j, call, world)
    {
      LastPassSnoc(events, j, call, world);
    }
    if Warm(events, call, world, now) {
      var j :| LastPass(events, j, call, world) && now - events[j].now < GATE_CACHE_TTL_MS;
      assert LastPass(before, j, call, world) && before[j] == events[j];
    }
    if !events[n].Cleared? && Warm(before, call, world, now) {
      var j :| LastPass(before, j, call, world) && now - before[j].now < GATE_CACHE_TTL_MS;
      assert LastPass(events, j, call, world) && before[j] == events[j];
    }
  }

  lemma OnlyLastPass(events: seq<Event>, call: Call, world: World)
    requires events != [] && Passed(events[|events| - 1], call, world)
    ensures forall j :: LastPass(events, j, call, world) ==> j == |events| - 1
  {
  }

  lemma WarmAgain(events: seq<Event>, call: Call, world: World, now: int)
    requires events != [] && Passed(events[|events| - 1], call, world)
    ensures Warm(events, call, world, now) <==> now - events[|events| - 1].now < GATE_CACHE_TTL_MS
  {
    var n := |events| - 1;
    assert LastPass(events, n, call, world);
    OnlyLastPass(events, call, world);
  }

  lemma HitStep(
    cache: GateCache, other: Call, calls: set<Call>, call: Call, world: World, hash: Manifest -> string,
    at: int, now: int)
    requires Proper(calls, hash) && other in calls && call in calls && Cacheable(call)
    ensures Hit(AfterRun(cache, other, hash, Fresh(other, world).ok, at), call, hash, now) <==>
              if SameGate(other, call) && Fresh(other, world).ok then now - at < GATE_CACHE_TTL_MS
              else Hit(cache, call, hash, now)
  {
    if Cacheable(other) { KeysAreDistinct(other, call, calls, hash); }
  }

  /**
   In every history of overlapping calls, whatever the clock does, the gate answers from the cache exactly when
   the last real run of the same gate that passed since the cache was cleared ended less than ten minutes before.
   */
  lemma {:induction false} ServedExactly(
    events: seq<Event>, calls: set<Call>, call: Call, world: World, hash: Manifest -> string, now: int)
    requires Proper(calls, hash) && Within(events, calls) && call in calls && Cacheable(call)
    ensures Hit(CacheAfter(events, world, hash), call, hash, now) <==> Warm(events, call, world, now)
  {
    if events != [] {
      var n := |events| - 1;
      var before := events[..n];
      ServedExactly(before, calls, call, world, hash, now);
      if Passed(events[n], call, world) {
        WarmAgain(events, call, world, now);
      } else {
        WarmStays(events, call, world, now);
      }
      if events[n].Ended? {
        assert events[n] in events;
        HitStep(CacheAfter(before, world, hash), events[n].call, calls, call, world, hash, events[n].now, now);
      }
    }
  }

  lemma {:induction false} FindLastPass(events: seq<Event>, j: nat, call: Call, world: World) returns (k: nat)
    requires j < |events| && Passed(events[j], call, world)
    requires forall i :: j < i < |events| ==> !events[i].Cleared?
    ensures j <= k < |events| && LastPass(events, k, call, world)
    decreases |events| - j
  {
    if i :| j < i < |events| && Passed(events[i], call, world) {
      k := FindLastPass(events, i, call, world);
    } else {
      k := j;
    }
  }

  /** While the clock runs, any such run of the last ten minutes will do. */
  lemma ServedWhileClockRuns(
    events: seq<Event>, calls: set<Call>, call: Call, world: World, hash: Manifest -> string, now: int)
    requires Proper(calls, hash) && Within(events, calls) && ClockRuns(events, now)
    requires call in calls && Cacheable(call)
    ensures Hit(CacheAfter(events, world, hash), call, hash, now) <==>
              exists j :: WarmSince(events, j, call, world, now)
  {
    ServedExactly(events, calls, call, world, hash, now);
    if Warm(events, call, world, now) {
      var j :| LastPass(events, j, call, world) && now - events[j].now < GATE_CACHE_TTL_MS;
      assert WarmSince(events, j, call, world, now);
    }
    if j :| WarmSince(events, j, call, world, now) {
      var k := FindLastPass(events, j, call, world);
      assert LastPass(events, k, call, world);
    }
  }

  /** The gate's answer to a call at now, after a history. */
  ghost function Answer(
    events: seq<Event>, call: Call, world: World, hash: Manifest -> string, now: int): GateResult
  {
    if Hit(CacheAfter(events, world, hash), call, hash, now) then SERVED else Fresh(call, world)
  }

  ghost predicate SameVerdict(a: GateResult, b: GateResult)
  {
    a.ok == b.ok && a.failure == b.failure
  }

  /** With its cache or without, the gate gives each of the calls the same verdict and the same failure, in every history. */
  ghost predicate ChangesNoVerdict(calls: set<Call>, hash: Manifest -> string)
  {
    forall events, call, world, now ::
      Within(events, calls) && call in calls ==> SameVerdict(Answer(events, call, world, hash, now), Fresh(call, world))
  }

  lemma AgreedAnswer(
    events: seq<Event>, calls: set<Call>, call: Call, world: World, hash: Manifest -> string, now: int)
    requires Proper(calls, hash) && AgreeOnCommands(calls) && Within(events, calls) && call in calls
    ensures SameVerdict(Answer(events, call, world, hash, now), Fresh(call, world))
  {
    if Hit(CacheAfter(events, world, hash), call, hash, now) {
      ServedExactly(events, calls, call, world, hash, now);
      var j :| LastPass(events, j, call, world) && now - events[j].now < GATE_CACHE_TTL_MS;
      var other := events[j].call;
      assert events[j] in events;
      WarmAnswerCarriesOver(other, call);
      assert Fresh(other, world).ok;
      FreshPassesExactly(call, world);
    }
  }

  /** What one call's pass, served to the other, says about their commands. */
  lemma ServedToOther(calls: set<Call>, hash: Manifest -> string, a: Call, b: Call)
    requires Proper(calls, hash) && ChangesNoVerdict(calls, hash) && a in calls && b in calls && SameGate(a, b)
    ensures Wanted(b) <= Wanted(a)
  {
    var events := [Ended(a, 0)];
    forall world: World | Fresh(a, world).ok ensures Fresh(b, world).ok {
      PassIsKept(a, world, hash);
      KeysAreDistinct(a, b, calls, hash);
      assert Hit(CacheAfter(events, world, hash), b, hash, 0);
      assert Within(events, calls);
      assert SameVerdict(Answer(events, b, world, hash, 0), Fresh(b, world));
    }
    WarmAnswerCarriesOver(a, b);
  }

  /** The cache changes no verdict, in any history of the calls, exactly when calls for one gate want the same commands. */
  lemma CacheChangesNoVerdict(calls: set<Call>, hash: Manifest -> string)
    requires Proper(calls, hash)
    ensures ChangesNoVerdict(calls, hash) <==> AgreeOnCommands(calls)
  {
    if AgreeOnCommands(calls) {
      forall events, call, world: World, now | Within(events, calls) && call in calls
        ensures SameVerdict(Answer(events, call, world, hash, now), Fresh(call, world))
      {
        AgreedAnswer(events, calls, call, world, hash, now);
      }
    }
    if ChangesNoVerdict(calls, hash) {
      forall a, b | a in calls && b in calls && SameGate(a, b) ensures Wanted(a) == Wanted(b) {
        ServedToOther(calls, hash, a, b);
        ServedToOther(calls, hash, b, a);
      }
    }
  }
}
