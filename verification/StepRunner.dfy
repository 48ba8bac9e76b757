/**
 The steps of an environment manifest: a manifest becomes an ordered list of steps, and the steps run until
 the first failure.
 */
module StepRunner {
  import opened Strings
  import Seqs

  const INSTALL_TIMEOUT_MS: nat := 300_000
  const READINESS_TIMEOUT_MS: nat := 180_000
  const COMMAND_TIMEOUT_MS: nat := 60_000
  const TOOL_TIMEOUT_MS: nat := 10_000

  // ---------------------------------------------------------------- planning

  datatype Phase = Toolchain | Install | EnvVars | Provision | Readiness

  /** A manifest; a field that is missing and one that is empty (or zero) are treated alike. */
  datatype Manifest = Manifest(
    runtime: string, install: string, required: seq<string>, provision: seq<string>,
    readiness: string, readinessSeconds: nat)

  datatype Step =
    | ToolCheck(phase: Phase, tool: string)
    | EnvCheck(phase: Phase, vars: seq<string>)
    | Command(phase: Phase, command: string, timeoutMs: nat)

  function Rank(phase: Phase): nat
  {
    match phase
    case Toolchain => 0
    case Install => 1
    case EnvVars => 2
    case Provision => 3
    case Readiness => 4
  }

  /** The part of a text before its first at sign. */
  function BeforeAt(s: string): string
  {
    if s == "" || s[0] == '@' then "" else [s[0]] + BeforeAt(s[1..])
  }

  function ToolSteps(m: Manifest): seq<Step>
  {
    if m.runtime == "" then [] else [ToolCheck(Toolchain, Trim(BeforeAt(m.runtime)))]
  }

  function InstallSteps(m: Manifest): seq<Step>
  {
    if m.install == "" then [] else [Command(Install, m.install, INSTALL_TIMEOUT_MS)]
  }

  function EnvSteps(m: Manifest): seq<Step>
  {
    if m.required == [] then [] else [EnvCheck(EnvVars, m.required)]
  }

  function ProvisionSteps(commands: seq<string>): seq<Step>
  {
    seq(|commands|, i requires 0 <= i < |commands| => Command(Provision, commands[i], COMMAND_TIMEOUT_MS))
  }

  function ReadinessSteps(m: Manifest): seq<Step>
  {
    if m.readiness == "" then []
    else [Command(Readiness, m.readiness,
                  if m.readinessSeconds != 0 then m.readinessSeconds * 1000 else READINESS_TIMEOUT_MS)]
  }

  function Plan(m: Manifest): seq<Step>
  {
    ToolSteps(m) + InstallSteps(m) + EnvSteps(m) + ProvisionSteps(m.provision) + ReadinessSteps(m)
  }

  method PlanSteps(m: Manifest) returns (steps: seq<Step>)
    ensures steps == Plan(m)
  {
    steps := [];
    if m.runtime != "" {
      steps := steps + [ToolCheck(Toolchain, Trim(BeforeAt(m.runtime)))];
    }
    if m.install != "" {
      steps := steps + [Command(Install, m.install, INSTALL_TIMEOUT_MS)];
    }
    if m.required != [] {
      steps := steps + [EnvCheck(EnvVars, m.required)];
    }
    ghost var before := steps;
    assert before == ToolSteps(m) + InstallSteps(m) + EnvSteps(m);
    for i := 0 to |m.provision|
      invariant steps == before + ProvisionSteps(m.provision[..i])
    {
      assert m.provision[..i + 1] == m.provision[..i] + [m.provision[i]];
      steps := steps + [Command(Provision, m.provision[i], COMMAND_TIMEOUT_MS)];
    }
    assert m.provision[..|m.provision|] == m.provision;
    if m.readiness != "" {
      steps := steps + [Command(Readiness, m.readiness,
                                if m.readinessSeconds != 0 then m.readinessSeconds * 1000
                                else READINESS_TIMEOUT_MS)];
    }
  }

  /** Phases never go back, so the first failure is in the earliest phase that has one. */
  ghost predicate InPhaseOrder(steps: seq<Step>)
  {
    forall i, j :: 0 <= i < j < |steps| ==> Rank(steps[i].phase) <= Rank(steps[j].phase)
  }

  ghost predicate AllIn(steps: seq<Step>, phase: Phase)
  {
    forall i :: 0 <= i < |steps| ==> steps[i].phase == phase
  }

  ghost predicate UpTo(steps: seq<Step>, phase: Phase)
  {
    forall i :: 0 <= i < |steps| ==> Rank(steps[i].phase) <= Rank(phase)
  }

  lemma AppendPhase(steps: seq<Step>, more: seq<Step>, last: Phase, phase: Phase)
    requires InPhaseOrder(steps) && UpTo(steps, last) && Rank(last) <= Rank(phase) && AllIn(more, phase)
    ensures InPhaseOrder(steps + more) && UpTo(steps + more, phase)
  {
  }

  lemma PlanInPhaseOrder(m: Manifest)
    ensures InPhaseOrder(Plan(m))
  {
    var a := ToolSteps(m);
    AppendPhase(a, InstallSteps(m), Toolchain, Install);
    var b := a + InstallSteps(m);
    AppendPhase(b, EnvSteps(m), Install, EnvVars);
    var c := b + EnvSteps(m);
    AppendPhase(c, ProvisionSteps(m.provision), EnvVars, Provision);
    AppendPhase(c + ProvisionSteps(m.provision), ReadinessSteps(m), Provision, Readiness);
  }

  // What a plan holds, in terms of the manifest.

  /** The tool is what stands before the first at sign, without the spaces around it. */
  ghost predicate NamesTool(runtime: string, tool: string)
  {
    exists n: nat :: NamedBy(runtime, tool, n)
  }

  ghost predicate NamedBy(runtime: string, tool: string, n: nat)
  {
    && n <= |runtime| && '@' !in runtime[..n] && (n < |runtime| ==> runtime[n] == '@')
    && IsTrimmed(runtime[..n], tool)
  }

  lemma {:induction false} BeforeAtExactly(s: string)
    ensures var n := |BeforeAt(s)|;
            n <= |s| && BeforeAt(s) == s[..n] && '@' !in s[..n] && (n < |s| ==> s[n] == '@')
  {
    if s != "" && s[0] != '@' {
      BeforeAtExactly(s[1..]);
      assert s == [s[0]] + s[1..];
    }
  }

  /** The step is one that the manifest asks for. */
  ghost predicate Asked(m: Manifest, step: Step)
  {
    match step
    case ToolCheck(phase, tool) => phase == Toolchain && m.runtime != "" && NamesTool(m.runtime, tool)
    case EnvCheck(phase, vars) => phase == EnvVars && m.required != [] && vars == m.required
    case Command(phase, command, timeoutMs) =>
      || (phase == Install && command == m.install != "" && timeoutMs == 300 * 1000)
      || (phase == Provision && command in m.provision && timeoutMs == 60 * 1000)
      || (phase == Readiness && command == m.readiness != "" &&
          timeoutMs == (if m.readinessSeconds == 0 then 180 else m.readinessSeconds) * 1000)
  }

  ghost predicate HasPhase(steps: seq<Step>, phase: Phase)
  {
    exists i :: 0 <= i < |steps| && steps[i].phase == phase
  }

  /** How many steps a phase may have: one, but for provision. */
  ghost predicate OnePerPhase(steps: seq<Step>)
  {
    forall i, j :: 0 <= i < j < |steps| && steps[i].phase == steps[j].phase ==> steps[i].phase == Provision
  }

  /** The provision steps stand together, one for each command, in the order of the commands. */
  ghost predicate ProvisionsAt(m: Manifest, steps: seq<Step>, from: nat)
  {
    && from + |m.provision| <= |steps|
    && forall i :: 0 <= i < |steps| ==>
         (steps[i].phase == Provision <==> from <= i < from + |m.provision|) &&
         (from <= i < from + |m.provision| ==> steps[i] == Command(Provision, m.provision[i - from], 60 * 1000))
  }

  /** The plan asks for nothing that the manifest does not, and leaves nothing out. */
  ghost predicate Plans(m: Manifest, steps: seq<Step>)
  {
    && InPhaseOrder(steps) && OnePerPhase(steps)
    && (forall i :: 0 <= i < |steps| ==> Asked(m, steps[i]))
    && (HasPhase(steps, Toolchain) <==> m.runtime != "")
    && (HasPhase(steps, Install) <==> m.install != "")
    && (HasPhase(steps, EnvVars) <==> m.required != [])
    && (HasPhase(steps, Readiness) <==> m.readiness != "")
    && exists from: nat :: ProvisionsAt(m, steps, from)
  }

  lemma ToolIsNamed(runtime: string)
    ensures NamesTool(runtime, Trim(BeforeAt(runtime)))
  {
    BeforeAtExactly(runtime);
    TrimExactly(BeforeAt(runtime));
    assert NamedBy(runtime, Trim(BeforeAt(runtime)), |BeforeAt(runtime)|);
  }

  lemma ToolIsAsked(m: Manifest)
    ensures forall step :: step in ToolSteps(m) ==> Asked(m, step)
  {
    ToolIsNamed(m.runtime);
  }

  lemma PartsAreAsked(m: Manifest)
    ensures forall i :: 0 <= i < |Plan(m)| ==> Asked(m, Plan(m)[i])
  {
    ToolIsAsked(m);
    forall i | 0 <= i < |Plan(m)| ensures Asked(m, Plan(m)[i]) {
      var step := Plan(m)[i];
      assert step in ToolSteps(m) || step in InstallSteps(m) || step in EnvSteps(m) ||
             step in ProvisionSteps(m.provision) || step in ReadinessSteps(m);
    }
  }

  lemma PartsOfPlan(m: Manifest)
    ensures HasPhase(Plan(m), Toolchain) <==> m.runtime != ""
    ensures HasPhase(Plan(m), Install) <==> m.install != ""
    ensures HasPhase(Plan(m), EnvVars) <==> m.required != []
    ensures HasPhase(Plan(m), Readiness) <==> m.readiness != ""
  {
    var a, b, c := ToolSteps(m), InstallSteps(m), EnvSteps(m);
    var d, e := ProvisionSteps(m.provision), ReadinessSteps(m);
    var plan := Plan(m);
    if a != [] { assert plan[0] == a[0]; }
    if b != [] { assert plan[|a|] == b[0]; }
    if c != [] { assert plan[|a| + |b|] == c[0]; }
    if e != [] { assert plan[|a| + |b| + |c| + |d|] == e[0]; }
    PartsAreAsked(m);
  }

  lemma ProvisionsPlanned(m: Manifest)
    ensures ProvisionsAt(m, Plan(m), |ToolSteps(m)| + |InstallSteps(m)| + |EnvSteps(m)|)
  {
  }

  lemma PlanOnePerPhase(m: Manifest)
    ensures OnePerPhase(Plan(m))
  {
  }

  lemma PlanExactly(m: Manifest)
    ensures Plans(m, Plan(m))
  {
    PlanInPhaseOrder(m);
    PartsAreAsked(m);
    PartsOfPlan(m);
    ProvisionsPlanned(m);
    PlanOnePerPhase(m);
  }

  // ---------------------------------------------------------------- execution

  datatype Invocation = Invocation(command: string, timeoutMs: nat)
  datatype Outcome = Outcome(code: int, detail: string)

  /** How a command ends, given the commands that ran before it: commands may change the tree. */
  type Runner = (seq<Invocation>, Invocation) -> Outcome

  type Env = map<string, string>

  datatype Status = Ok | Fail | Skip
  datatype Message =
    | SkippedByCaller | SkippedAfterFailure
    | VarsPresent | MissingVars(vars: seq<string>)
    | Found | NotOnPath(tool: string)
    | Succeeded | Exited(outcome: Outcome)

  datatype StepResult = StepResult(phase: Phase, status: Status, message: Message)

  /** Results so far, the commands handed to the runner so far, and whether a step has failed. */
  datatype Trace = Trace(results: seq<StepResult>, ran: seq<Invocation>, aborted: bool)

  predicate IsSet(env: Env, v: string)
  {
    v in env && env[v] != ""
  }

  function Missing(vars: seq<string>, env: Env): seq<string>
  {
    if vars == [] then []
    else (if IsSet(env, vars[0]) then [] else [vars[0]]) + Missing(vars[1..], env)
  }

  lemma {:induction false} MissingExactly(vars: seq<string>, env: Env)
    ensures Missing(vars, env) == [] <==> forall v :: v in vars ==> IsSet(env, v)
  {
    if vars != [] {
      MissingExactly(vars[1..], env);
      assert vars == [vars[0]] + vars[1..];
    }
  }

  function Unset(env: Env): string -> bool
  {
    (v: string) => !(v in env && env[v] != "")
  }

  /** The missing variables are those that have no value, in the order in which they are required. */
  lemma {:induction false} MissingAre(vars: seq<string>, env: Env)
    ensures Missing(vars, env) == Seqs.Filter(vars, Unset(env))
  {
    if vars != [] { MissingAre(vars[1..], env); }
  }

  /** What a step hands to the runner. */
  function Shell(step: Step): seq<Invocation>
  {
    match step
    case ToolCheck(_, tool) => [Invocation("command -v " + tool, TOOL_TIMEOUT_MS)]
    case EnvCheck(_, _) => []
    case Command(_, command, timeoutMs) => [Invocation(command, timeoutMs)]
  }

  function Attempt(step: Step, env: Env, run: Runner, ran: seq<Invocation>): StepResult
  {
    match step
    case EnvCheck(phase, vars) =>
      if Missing(vars, env) == [] then StepResult(phase, Ok, VarsPresent)
      else StepResult(phase, Fail, MissingVars(Missing(vars, env)))
    case ToolCheck(phase, tool) =>
      if run(ran, Invocation("command -v " + tool, TOOL_TIMEOUT_MS)).code == 0 then StepResult(phase, Ok, Found)
      else StepResult(phase, Fail, NotOnPath(tool))
    case Command(phase, command, timeoutMs) =>
      var out := run(ran, Invocation(command, timeoutMs));
      if out.code == 0 then StepResult(phase, Ok, Succeeded) else StepResult(phase, Fail, Exited(out))
  }

  function Extend(t: Trace, step: Step, skip: set<Phase>, env: Env, run: Runner): Trace
  {
    if step.phase in skip then
      t.(results := t.results + [StepResult(step.phase, Skip, SkippedByCaller)])
    else if t.aborted then
      t.(results := t.results + [StepResult(step.phase, Skip, SkippedAfterFailure)])
    else
      var r := Attempt(step, env, run, t.ran);
      Trace(t.results + [r], t.ran + Shell(step), r.status == Fail)
  }

  function Executed(steps: seq<Step>, skip: set<Phase>, env: Env, run: Runner): (t: Trace)
    ensures |t.results| == |steps|
  {
    if steps == [] then Trace([], [], false)
    else
      var n := |steps| - 1;
      Extend(Executed(steps[..n], skip, env, run), steps[n], skip, env, run)
  }

  method ExecuteSteps(steps: seq<Step>, skip: set<Phase>, env: Env, run: Runner)
    returns (results: seq<StepResult>, ran: seq<Invocation>)
    ensures results == Executed(steps, skip, env, run).results
    ensures ran == Executed(steps, skip, env, run).ran
  {
    results, ran := [], [];
    var aborted := false;
    for i := 0 to |steps|
      invariant Trace(results, ran, aborted) == Executed(steps[..i], skip, env, run)
    {
      var step := steps[i];
      assert steps[..i + 1][..i] == steps[..i];
      if step.phase in skip {
        results := results + [StepResult(step.phase, Skip, SkippedByCaller)];
        continue;
      }
      if aborted {
        results := results + [StepResult(step.phase, Skip, SkippedAfterFailure)];
        continue;
      }
      var result;
      match step {
        case EnvCheck(phase, vars) =>
          var missing := Missing(vars, env);
          result := if missing == [] then StepResult(phase, Ok, VarsPresent)
                    else StepResult(phase, Fail, MissingVars(missing));
        case ToolCheck(phase, tool) =>
          var probe := Invocation("command -v " + tool, TOOL_TIMEOUT_MS);
          var out := run(ran, probe);
          ran := ran + [probe];
          result := if out.code == 0 then StepResult(phase, Ok, Found)
                    else StepResult(phase, Fail, NotOnPath(tool));
        case Command(phase, command, timeoutMs) =>
          var out := run(ran, Invocation(command, timeoutMs));
          ran := ran + [Invocation(command, timeoutMs)];
          result := if out.code == 0 then StepResult(phase, Ok, Succeeded)
                    else StepResult(phase, Fail, Exited(out));
      }
      if result.status == Fail {
        aborted := true;
      }
      results := results + [result];
    }
    assert steps[..|steps|] == steps;
  }

  // ---------------------------------------------------------------- what an execution means

  /** Everything the first n steps hand to the runner when nothing fails. */
  ghost function Commands(steps: seq<Step>, skip: set<Phase>, n: nat): seq<Invocation>
    requires n <= |steps|
  {
    if n == 0 then []
    else Commands(steps, skip, n - 1) + if steps[n - 1].phase in skip then [] else Shell(steps[n - 1])
  }

  /** Step i succeeds when it runs after every earlier step that is not skipped. */
  ghost predicate Passes(steps: seq<Step>, skip: set<Phase>, env: Env, run: Runner, i: nat)
    requires i < |steps|
  {
    match steps[i]
    case EnvCheck(_, vars) => forall v :: v in vars ==> IsSet(env, v)
    case ToolCheck(_, tool) =>
      run(Commands(steps, skip, i), Invocation("command -v " + tool, TOOL_TIMEOUT_MS)).code == 0
    case Command(_, command, timeoutMs) => run(Commands(steps, skip, i), Invocation(command, timeoutMs)).code == 0
  }

  ghost predicate AllPass(steps: seq<Step>, skip: set<Phase>, env: Env, run: Runner, n: nat)
    requires n <= |steps|
  {
    forall i {:trigger Passes(steps, skip, env, run, i)} :: 0 <= i < n ==>
      steps[i].phase in skip || Passes(steps, skip, env, run, i)
  }

  /** The one failing step, if any, is f: everything wanted before it passes and it does not. */
  ghost predicate FailsFirst(steps: seq<Step>, skip: set<Phase>, env: Env, run: Runner, f: nat)
    requires f < |steps|
  {
    AllPass(steps, skip, env, run, f) && steps[f].phase !in skip && !Passes(steps, skip, env, run, f)
  }

  ghost predicate Judged(steps: seq<Step>, skip: set<Phase>, env: Env, run: Runner, i: nat, r: StepResult)
    requires i < |steps|
  {
    && r.phase == steps[i].phase
    && (r.message == SkippedByCaller <==> r.phase in skip)
    && (r.status == Ok <==> r.phase !in skip && AllPass(steps, skip, env, run, i + 1))
    && (r.status == Fail <==> FailsFirst(steps, skip, env, run, i))
  }

  lemma {:induction false} AttemptMeansPasses(steps: seq<Step>, skip: set<Phase>, env: Env, run: Runner, n: nat)
    requires n < |steps|
    ensures var r := Attempt(steps[n], env, run, Commands(steps, skip, n));
            r.phase == steps[n].phase && r.message != SkippedByCaller &&
            r.status == if Passes(steps, skip, env, run, n) then Ok else Fail
  {
    if steps[n].EnvCheck? { MissingExactly(steps[n].vars, env); }
  }

  ghost predicate StoppedAt(
    steps: seq<Step>, skip: set<Phase>, env: Env, run: Runner, f: nat, ran: seq<Invocation>)
    requires f < |steps|
  {
    FailsFirst(steps, skip, env, run, f) && ran == Commands(steps, skip, f + 1)
  }

  /** What is handed to the runner: the wanted commands, up to and including the first failing step's. */
  ghost predicate RanExactly(steps: seq<Step>, skip: set<Phase>, env: Env, run: Runner, n: nat, t: Trace)
    requires n <= |steps|
  {
    && (t.aborted <==> !AllPass(steps, skip, env, run, n))
    && (!t.aborted ==> t.ran == Commands(steps, skip, n))
    && (t.aborted ==> exists f: nat :: f < n && StoppedAt(steps, skip, env, run, f, t.ran))
  }

  lemma AllPassStep(steps: seq<Step>, skip: set<Phase>, env: Env, run: Runner, n: nat)
    requires n < |steps|
    ensures AllPass(steps, skip, env, run, n + 1) <==>
              AllPass(steps, skip, env, run, n) &&
              (steps[n].phase !in skip ==> Passes(steps, skip, env, run, n))
  {
  }

  lemma RanSkipped(steps: seq<Step>, skip: set<Phase>, env: Env, run: Runner, n: nat, t: Trace)
    requires n < |steps| && RanExactly(steps, skip, env, run, n, t)
    requires steps[n].phase in skip || t.aborted
    ensures RanExactly(steps, skip, env, run, n + 1, Extend(t, steps[n], skip, env, run))
  {
    var next := Extend(t, steps[n], skip, env, run);
    AllPassStep(steps, skip, env, run, n);
    assert next.aborted == t.aborted && next.ran == t.ran;
  }

  lemma RanAttempted(steps: seq<Step>, skip: set<Phase>, env: Env, run: Runner, n: nat, t: Trace)
    requires n < |steps| && RanExactly(steps, skip, env, run, n, t)
    requires steps[n].phase !in skip && !t.aborted
    ensures RanExactly(steps, skip, env, run, n + 1, Extend(t, steps[n], skip, env, run))
  {
    var next := Extend(t, steps[n], skip, env, run);
    AttemptMeansPasses(steps, skip, env, run, n);
    AllPassStep(steps, skip, env, run, n);
    assert next.ran == Commands(steps, skip, n + 1);
    if next.aborted {
      assert StoppedAt(steps, skip, env, run, n, next.ran);
    }
  }

  lemma {:induction false} JudgedAttempted(steps: seq<Step>, skip: set<Phase>, env: Env, run: Runner, n: nat, r: StepResult)
    requires n < |steps| && steps[n].phase !in skip && AllPass(steps, skip, env, run, n)
    requires r == Attempt(steps[n], env, run, Commands(steps, skip, n))
    ensures Judged(steps, skip, env, run, n, r)
  {
    AttemptMeansPasses(steps, skip, env, run, n);
    AllPassStep(steps, skip, env, run, n);
  }

  lemma {:induction false} ExecutedSnoc(steps: seq<Step>, skip: set<Phase>, env: Env, run: Runner, n: nat)
    requires n < |steps|
    ensures Executed(steps[..n + 1], skip, env, run) ==
            Extend(Executed(steps[..n], skip, env, run), steps[n], skip, env, run)
  {
    assert steps[..n + 1][..n] == steps[..n];
  }

  lemma {:induction false} RanPrefix(steps: seq<Step>, skip: set<Phase>, env: Env, run: Runner, n: nat)
    requires n <= |steps|
    ensures RanExactly(steps, skip, env, run, n, Executed(steps[..n], skip, env, run))
  {
    if n > 0 {
      RanPrefix(steps, skip, env, run, n - 1);
      ExecutedSnoc(steps, skip, env, run, n - 1);
      var t := Executed(steps[..n - 1], skip, env, run);
      if steps[n - 1].phase in skip || t.aborted {
        RanSkipped(steps, skip, env, run, n - 1, t);
      } else {
        RanAttempted(steps, skip, env, run, n - 1, t);
      }
    }
  }

  lemma {:induction false} ResultsStay(
    steps: seq<Step>, skip: set<Phase>, env: Env, run: Runner, i: nat, n: nat)
    requires i < n <= |steps|
    ensures Executed(steps[..n], skip, env, run).results[i] ==
            Executed(steps[..i + 1], skip, env, run).results[i]
  {
    if i + 1 < n {
      ResultsStay(steps, skip, env, run, i, n - 1);
      ExecutedSnoc(steps, skip, env, run, n - 1);
    }
  }

  /**
   Every execution: a step is reported ok exactly when it and all wanted steps before it pass, at most
   one step is reported failed and it is the first that does not pass, and the runner is handed exactly
   the wanted commands up to that step and nothing after it.
   */
  lemma {:induction false} ExecutedExactly(steps: seq<Step>, skip: set<Phase>, env: Env, run: Runner)
    ensures var t := Executed(steps, skip, env, run);
            RanExactly(steps, skip, env, run, |steps|, t) &&
            forall i: nat :: i < |steps| ==> Judged(steps, skip, env, run, i, t.results[i])
  {
    RanPrefix(steps, skip, env, run, |steps|);
    assert steps[..|steps|] == steps;
    forall i: nat | i < |steps|
      ensures Judged(steps, skip, env, run, i, Executed(steps, skip, env, run).results[i])
    {
      RanPrefix(steps, skip, env, run, i);
      ExecutedSnoc(steps, skip, env, run, i);
      ResultsStay(steps, skip, env, run, i, |steps|);
      var t := Executed(steps[..i], skip, env, run);
      if steps[i].phase !in skip && !t.aborted {
        JudgedAttempted(steps, skip, env, run, i, Extend(t, steps[i], skip, env, run).results[i]);
      }
    }
  }

  /** What a result says: why a step was left out, what was found, or what went wrong. */
  ghost predicate Told(steps: seq<Step>, skip: set<Phase>, env: Env, run: Runner, i: nat, r: StepResult)
    requires i < |steps|
  {
    match r.status
    case Skip => r.message == if steps[i].phase in skip then SkippedByCaller else SkippedAfterFailure
    case Ok =>
      (match steps[i]
       case EnvCheck(_, _) => r.message == VarsPresent
       case ToolCheck(_, _) => r.message == Found
       case Command(_, _, _) => r.message == Succeeded)
    case Fail =>
      (match steps[i]
       case EnvCheck(_, vars) => r.message == MissingVars(Seqs.Filter(vars, Unset(env)))
       case ToolCheck(_, tool) => r.message == NotOnPath(tool)
       case Command(_, command, timeoutMs) =>
         r.message == Exited(run(Commands(steps, skip, i), Invocation(command, timeoutMs))))
  }

  lemma AttemptTells(steps: seq<Step>, skip: set<Phase>, env: Env, run: Runner, i: nat)
    requires i < |steps|
    ensures Told(steps, skip, env, run, i, Attempt(steps[i], env, run, Commands(steps, skip, i)))
  {
    if steps[i].EnvCheck? { MissingAre(steps[i].vars, env); }
  }

  lemma ResultsTell(steps: seq<Step>, skip: set<Phase>, env: Env, run: Runner, i: nat)
    requires i < |steps|
    ensures Told(steps, skip, env, run, i, Executed(steps, skip, env, run).results[i])
  {
    assert steps[..|steps|] == steps;
    RanPrefix(steps, skip, env, run, i);
    ExecutedSnoc(steps, skip, env, run, i);
    ResultsStay(steps, skip, env, run, i, |steps|);
    AttemptTells(steps, skip, env, run, i);
  }

  lemma {:induction false} AtMostOneFailure(steps: seq<Step>, skip: set<Phase>, env: Env, run: Runner, i: nat, j: nat)
    requires i < |steps| && j < |steps|
    requires Executed(steps, skip, env, run).results[i].status == Fail
    requires Executed(steps, skip, env, run).results[j].status == Fail
    ensures i == j
  {
    ExecutedExactly(steps, skip, env, run);
    assert Judged(steps, skip, env, run, i, Executed(steps, skip, env, run).results[i]);
    assert Judged(steps, skip, env, run, j, Executed(steps, skip, env, run).results[j]);
  }
}
