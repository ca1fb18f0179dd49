/** Which step breaks the promise that a part is shut down once: only a call into a shutdown from inside itself. */
module TelemetryReentry {
  import opened Telemetry
  import opened TelemetryProofs

  // ----- what lies below a build or a tier

  /** A run of `part` may lie below the frame: the frame's own code will not call that part. */
  ghost predicate MayLieBelow(s: State, part: nat, frame: Frame) {
    match frame
    case InBuild =>
      s.starts != [] ==> part !in s.starts[|s.starts| - 1].releases && part !in s.starts[|s.starts| - 1].pipelines
    case InTier(f) => f < |s.fences| && |s.fences[f].waited| < |s.fences[f].tiers| ==> part !in CurrentTier(s.fences[f])
    case InRun(_, _, _) => true
  }

  ghost predicate Clear(s: State) {
    forall i, j | 0 <= i < j < |s.stack| && s.stack[i].InRun? :: MayLieBelow(s, s.stack[i].part, s.stack[j])
  }

  /** What may lie below a frame of the stack still may after a step. */
  ghost predicate Carries(s: State, t: State) {
    forall part: nat, frame: Frame | part < |s.parts| && frame in s.stack && MayLieBelow(s, part, frame) ::
      MayLieBelow(t, part, frame)
  }

  /** What may lie below a frame is told from the starts and the fences alone. */
  lemma CarriesSame(s: State, t: State)
    requires t.starts == s.starts && t.fences == s.fences
    ensures Carries(s, t)
  {
  }

  lemma RunningIsPart(s: State, i: nat)
    requires Inv(s) && i < |s.stack| && s.stack[i].InRun?
    ensures s.stack[i].part < |s.parts| && s.parts[s.stack[i].part].runs != []
  {
    assert FrameOk(s.stack, i, s.parts, s.fences, s.building, s.stopping);
  }

  lemma ClearShorter(s: State, t: State)
    requires Inv(s) && Clear(s) && Carries(s, t) && |t.stack| <= |s.stack| && t.stack == s.stack[..|t.stack|]
    ensures Clear(t)
  {
    forall i, j | 0 <= i < j < |t.stack| && t.stack[i].InRun? ensures MayLieBelow(t, t.stack[i].part, t.stack[j]) {
      assert t.stack[i] == s.stack[i] && t.stack[j] == s.stack[j];
      RunningIsPart(s, i);
    }
  }

  lemma ClearPush(s: State, t: State, frame: Frame)
    requires Inv(s) && Clear(s) && Carries(s, t) && t.stack == s.stack + [frame]
    requires forall i | 0 <= i < |s.stack| && s.stack[i].InRun? :: MayLieBelow(t, s.stack[i].part, frame)
    ensures Clear(t)
  {
    forall i, j | 0 <= i < j < |t.stack| && t.stack[i].InRun? ensures MayLieBelow(t, t.stack[i].part, t.stack[j]) {
      RunningIsPart(s, i);
      if j < |s.stack| { assert t.stack[j] == s.stack[j]; }
    }
  }

  // ----- every step keeps it

  lemma ClearByInit(s: State, enabled: bool)
    requires Inv(s) && Clear(s)
    ensures Clear(Apply(s, CallInit(enabled)))
  {
    var t := Apply(s, CallInit(enabled));
    if t != s {
      NoBuildUnlessBuilding(s);
      ClearPush(s, t, InBuild);
    }
  }

  lemma ClearByBuild(s: State, step: Step)
    requires Inv(s) && Clear(s) && Enabled(s, step) && (step.Own? || step.Defer? || step.Commit? || step.Activate?)
    ensures Clear(Apply(s, step))
  {
    ClearShorter(s, Apply(s, step));
  }

  /** A refused start's tier is what it owned: nothing below its build is in it. */
  lemma ClearByRefuse(s: State)
    requires Inv(s) && Clear(s) && Enabled(s, Refuse)
    ensures Clear(Apply(s, Refuse))
  {
    var t := Apply(s, Refuse);
    LastFacts(s);
    NoTierUnlessStopping(s);
    var n := |s.stack| - 1;
    forall i | 0 <= i < |s.stack| && s.stack[i].InRun? ensures MayLieBelow(t, s.stack[i].part, InTier(|s.fences|)) {
      assert MayLieBelow(s, s.stack[i].part, s.stack[n]);
    }
    ClearPush(s, t, InTier(|s.fences|));
  }

  /** A shutdown's first tier is the SDK's own shutdown, which nothing has called yet. */
  lemma ClearByShutdown(s: State)
    requires Inv(s) && Clear(s)
    ensures Clear(Apply(s, CallShutdown))
  {
    var t := Apply(s, CallShutdown);
    if t != s {
      NoTierUnlessStopping(s);
      NoBuildUnlessBuilding(s);
      forall i | 0 <= i < |s.stack| && s.stack[i].InRun? ensures MayLieBelow(t, s.stack[i].part, InTier(|s.fences|)) {
        RunningIsPart(s, i);
      }
      ClearPush(s, t, InTier(|s.fences|));
    }
  }

  lemma ClearByReleased(s: State, part: nat, forTier: bool)
    requires Inv(s) && Clear(s) && part < |s.parts| && s.parts[part].settling.None?
    ensures Clear(Released(s, part, forTier))
  {
    ClearPush(s, Released(s, part, forTier), InRun(part, |s.parts[part].runs|, forTier));
  }

  lemma ClearByAwaiting(s: State, fence: nat, p: Promise)
    requires Inv(s) && Clear(s) && fence < |s.fences|
    ensures Clear(Awaiting(s, fence, p))
  {
    ClearShorter(s, Awaiting(s, fence, p));
  }

  lemma ClearByBack(s: State, threw: bool)
    requires Inv(s) && Clear(s) && Enabled(s, Return(threw))
    ensures Clear(Back(s, threw))
  {
    ClearShorter(s, Back(s, threw));
  }

  lemma ClearByReturn(s: State, threw: bool)
    requires Inv(s) && Clear(s) && Enabled(s, Return(threw))
    ensures Clear(Apply(s, Return(threw)))
  {
    ClearByBack(s, threw);
    if Top(s).value.forTier {
      KeptByReturned(s, threw);
      ClearByAwaiting(Back(s, threw), Top(Pop(s)).value.fence, Promise(Top(s).value.part, Top(s).value.run));
    }
  }

  /** The frame on top is popped. */
  lemma ClearByPop(s: State, step: Step)
    requires Inv(s) && Clear(s) && Enabled(s, step) && (step.Unwind? || step.AwaitTier?)
    ensures Clear(Apply(s, step))
  {
    CarriesSame(s, Apply(s, step));
    ClearShorter(s, Apply(s, step));
  }

  lemma ClearByPublish(s: State)
    requires Inv(s) && Clear(s) && Enabled(s, Publish)
    ensures Clear(Apply(s, Publish))
  {
    ClearShorter(s, Apply(s, Publish));
  }

  lemma ClearBySettle(s: State, p: Promise, ok: bool)
    requires Inv(s) && Clear(s) && Enabled(s, Settle(p, ok))
    ensures Clear(Apply(s, Settle(p, ok)))
  {
    assert Apply(s, Settle(p, ok)).stack == [];
  }

  lemma ClearByRelease(s: State, part: nat)
    requires Inv(s) && Clear(s) && Enabled(s, CallRelease(part))
    ensures Clear(Apply(s, CallRelease(part)))
  {
    if s.parts[part].settling.None? { ClearByReleased(s, part, false); }
  }

  /** A later tier begins on an empty stack. */
  lemma ClearByTierSettled(s: State)
    requires Inv(s) && Enabled(s, TierSettled)
    ensures Clear(Apply(s, TierSettled))
  {
    assert |Apply(s, TierSettled).stack| <= 1;
  }

  /** The code of a build or a tier never finds its own parts running below it. */
  lemma ClearKept(s: State, step: Step)
    requires Inv(s) && Clear(s) && Enabled(s, step)
    ensures Clear(Apply(s, step))
  {
    match step
    case CallInit(enabled) => ClearByInit(s, enabled);
    case Own(_) => ClearByBuild(s, step);
    case Defer => ClearByBuild(s, step);
    case Commit => ClearByBuild(s, step);
    case Activate => ClearByBuild(s, step);
    case Refuse => ClearByRefuse(s);
    case Publish => ClearByPublish(s);
    case Unwind => ClearByPop(s, step);
    case CallShutdown => ClearByShutdown(s);
    case CallRelease(part) => ClearByRelease(s, part);
    case InvokeNext => ClearByInvokeNext(s);
    case AwaitTier => ClearByPop(s, step);
    case Return(threw) => ClearByReturn(s, threw);
    case Settle(p, ok) => ClearBySettle(s, p, ok);
    case TierSettled => ClearByTierSettled(s);
  }

  lemma ClearByInvokeNext(s: State)
    requires Inv(s) && Clear(s) && Enabled(s, InvokeNext)
    ensures Clear(Apply(s, InvokeNext))
  {
    var fence := Top(s).value.fence;
    var part := CurrentTier(s.fences[fence])[|s.fences[fence].awaited|];
    if s.parts[part].settling.Some? {
      ClearShorter(s, Apply(s, InvokeNext));
    } else {
      ClearByReleased(s, part, true);
    }
  }

  // ----- second runs

  /** How often a part's real shutdown has begun; a part not owned yet has not run. */
  function Runs(s: State, part: nat): nat {
    if part < |s.parts| then |s.parts[part].runs| else 0
  }

  /** The step calls a part's shutdown from inside a run of it, before any run of it has returned. */
  predicate CallsBackInto(s: State, step: Step, part: nat) {
    step == CallRelease(part) && part < |s.parts| && s.parts[part].settling.None? && OnStack(s.stack, part)
  }

  /** Before any run of a part has returned, it has run exactly if a run of it is on the stack. */
  lemma RunsAreOnStack(s: State, part: nat)
    requires Inv(s) && part < |s.parts| && s.parts[part].settling.None?
    ensures Runs(s, part) >= 1 <==> OnStack(s.stack, part)
  {
    ActiveOnStack(s.stack, part);
    assert PartOk(s.parts[part], Active(s.stack, part));
  }

  /** A tier's next member is not running when the tier invokes it. */
  lemma NextIsNotRunning(s: State)
    requires Inv(s) && Clear(s) && Enabled(s, InvokeNext)
    ensures var f := s.fences[Top(s).value.fence]; !OnStack(s.stack, CurrentTier(f)[|f.awaited|])
  {
    var f := s.fences[Top(s).value.fence];
    var part := CurrentTier(f)[|f.awaited|];
    var n := |s.stack| - 1;
    forall i | 0 <= i < |s.stack| ensures !(s.stack[i].InRun? && s.stack[i].part == part) {
      if i < n && s.stack[i].InRun? { assert MayLieBelow(s, s.stack[i].part, s.stack[n]); }
    }
  }

  ghost predicate Begins(s: State, step: Step, part: nat)
    requires Enabled(s, step)
  {
    Runs(Apply(s, step), part) == Runs(s, part) + 1
  }

  lemma ReleaseBegins(s: State, called: nat, part: nat)
    requires Inv(s) && Enabled(s, CallRelease(called))
    ensures Runs(Apply(s, CallRelease(called)), part) == Runs(s, part) || Begins(s, CallRelease(called), part)
    ensures Begins(s, CallRelease(called), part) <==> part == called && s.parts[called].settling.None?
  {
  }

  lemma InvokeBegins(s: State, part: nat)
    requires Inv(s) && Clear(s) && Enabled(s, InvokeNext)
    ensures Runs(Apply(s, InvokeNext), part) == Runs(s, part) || (Runs(s, part) == 0 && Begins(s, InvokeNext, part))
  {
    var f := s.fences[Top(s).value.fence];
    var next := CurrentTier(f)[|f.awaited|];
    if s.parts[next].settling.None? {
      NextIsNotRunning(s);
      RunsAreOnStack(s, next);
    }
  }

  lemma OthersBeginNone(s: State, step: Step, part: nat)
    requires Inv(s) && Enabled(s, step) && !step.CallRelease? && !step.InvokeNext?
    ensures Runs(Apply(s, step), part) == Runs(s, part)
  {
  }

  /** A step begins at most one run of a part, and a second one exactly when it calls back into the first. */
  lemma StepBegins(s: State, step: Step, part: nat)
    requires Inv(s) && Clear(s) && Enabled(s, step)
    ensures Runs(Apply(s, step), part) == Runs(s, part) || Begins(s, step, part)
    ensures Runs(s, part) >= 1 && Begins(s, step, part) <==> CallsBackInto(s, step, part)
  {
    if step.CallRelease? {
      ReleaseBegins(s, step.part, part);
      if s.parts[step.part].settling.None? { RunsAreOnStack(s, step.part); }
    } else if step.InvokeNext? {
      InvokeBegins(s, part);
    } else {
      OthersBeginNone(s, step, part);
    }
  }

  // ----- over whole runs

  /** No step of a run calls a part's shutdown from inside itself. */
  ghost predicate NeverCallsBack(s: State, steps: seq<Step>, part: nat)
    decreases |steps|
  {
    steps != [] && Enabled(s, steps[0]) ==>
      !CallsBackInto(s, steps[0], part) && NeverCallsBack(Apply(s, steps[0]), steps[1..], part)
  }

  lemma {:induction false} RunsFrom(s: State, steps: seq<Step>, end: State, part: nat)
    requires Inv(s) && Clear(s) && RunFrom(s, steps, end)
    ensures Inv(end) && Clear(end) && Runs(end, part) >= Runs(s, part)
    ensures NeverCallsBack(s, steps, part) ==> Runs(end, part) <= 1 || Runs(end, part) == Runs(s, part)
    ensures !NeverCallsBack(s, steps, part) ==> Runs(end, part) >= 2
    decreases |steps|
  {
    if steps != [] {
      StepKeeps(s, steps[0]);
      ClearKept(s, steps[0]);
      StepBegins(s, steps[0], part);
      RunsFrom(Apply(s, steps[0]), steps[1..], end, part);
    }
  }

  /** Second runs, in any reachable state: exactly the calls into a shutdown from inside itself begin one. */
  lemma SecondRunIff(s: State, step: Step, part: nat)
    requires Reachable(s) && Enabled(s, step)
    ensures Runs(s, part) >= 1 && Runs(Apply(s, step), part) > Runs(s, part) <==> CallsBackInto(s, step, part)
  {
    var steps :| RunFrom(INITIAL, steps, s);
    InitialHolds();
    RunsFrom(INITIAL, steps, s, part);
    StepBegins(s, step, part);
  }

  /** A part's real shutdown runs at most once in a run, exactly when the run never calls it from inside itself. */
  lemma RunsAtMostOnce(steps: seq<Step>, end: State, part: nat)
    requires RunFrom(INITIAL, steps, end)
    ensures Runs(end, part) <= 1 <==> NeverCallsBack(INITIAL, steps, part)
  {
    InitialHolds();
    RunsFrom(INITIAL, steps, end, part);
  }

  /** And then, when the next build begins, each part its earlier starts must settle has run once, and is done. */
  lemma BuildFindsEachSettledOnce(steps: seq<Step>, s: State, enabled: bool, c: nat, part: nat)
    requires RunFrom(INITIAL, steps, s) && NeverCallsBack(INITIAL, steps, part)
    requires Apply(s, CallInit(enabled)) != s && c < |s.starts| && MustSettle(s.starts[c], part)
    ensures part < |s.parts| && |s.parts[part].runs| == 1 && s.parts[part].runs[0] != Pending
  {
    RunsAtMostOnce(steps, s, part);
    BuildBeginsClear(s, enabled, c, part);
  }
}
