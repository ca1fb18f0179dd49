/**
 * What the calls bring about: a shutdown tears its start down, whatever is torn down settles, and
 * a start is always possible again; what a build owns, and how a promise settles, is just what its steps say.
 */
module TelemetryEffects {
  import opened Texts
  import opened Telemetry
  import opened TelemetryProofs

  // ----- what a step never changes

  /** How far a start's fate is sealed: once committed or refused, its ledger and its fence stay. */
  ghost predicate StartStays(c: Construction, d: Construction) {
    c.phase == Committed || c.phase == Refused ==>
      d.(fence := c.fence) == c && (c.fence.Some? ==> d.fence == c.fence)
  }

  ghost predicate FenceStays(f: Fence, g: Fence) {
    g.start == f.start && g.tiers == f.tiers && (f.done ==> g == f)
  }

  /** A later state: nothing settled, sealed or over has changed. */
  ghost predicate Later(s: State, t: State) {
    && |s.starts| <= |t.starts| && |s.fences| <= |t.fences| && Grows(s.parts, t.parts)
    && (forall c | 0 <= c < |s.starts| :: StartStays(s.starts[c], t.starts[c]))
    && (forall f | 0 <= f < |s.fences| :: FenceStays(s.fences[f], t.fences[f]))
  }

  lemma LaterTransitive(s: State, t: State, u: State)
    requires Later(s, t) && Later(t, u)
    ensures Later(s, u)
  {
    forall c | 0 <= c < |s.starts| ensures StartStays(s.starts[c], u.starts[c]) {
      assert StartStays(s.starts[c], t.starts[c]) && StartStays(t.starts[c], u.starts[c]);
    }
    forall f | 0 <= f < |s.fences| ensures FenceStays(s.fences[f], u.fences[f]) {
      assert FenceStays(s.fences[f], t.fences[f]) && FenceStays(t.fences[f], u.fences[f]);
    }
    forall p | 0 <= p < |s.parts| ensures PartGrows(s.parts[p], u.parts[p]) {
      assert PartGrows(s.parts[p], t.parts[p]) && PartGrows(t.parts[p], u.parts[p]);
    }
  }

  lemma LaterWhereSame(s: State, t: State)
    requires t.starts == s.starts && t.fences == s.fences && Grows(s.parts, t.parts)
    ensures Later(s, t)
  {
  }

  lemma LaterByNewest(s: State, t: State, c: Construction)
    requires s.starts != [] && s.starts[|s.starts| - 1].phase in {Building, Committing}
    requires t.starts == s.starts[|s.starts| - 1 := c] && t.fences == s.fences && Grows(s.parts, t.parts)
    ensures Later(s, t)
  {
  }

  lemma LaterByBuild(s: State, step: Step)
    requires Inv(s) && Enabled(s, step)
    requires step.Own? || step.Defer? || step.Commit? || step.Activate? || step.Publish?
    ensures Later(s, Apply(s, step))
  {
    var t := Apply(s, step);
    assert Grows(s.parts, t.parts);
    LaterByNewest(s, t, t.starts[|s.starts| - 1]);
  }

  lemma LaterByFence(s: State, start: nat, tiers: seq<seq<nat>>)
    requires start < |s.starts| && s.starts[start].fence.None?
    ensures Later(s, Fenced(s, start, tiers))
  {
  }

  lemma LaterByRefuse(s: State)
    requires Inv(s) && Enabled(s, Refuse)
    ensures Later(s, Apply(s, Refuse))
  {
    LastFacts(s);
    var c := s.starts[|s.starts| - 1];
    var u := WithLast(s, c.(phase := Refused));
    LaterByNewest(s, u, c.(phase := Refused));
    LaterByFence(u, |s.starts| - 1, [c.releases]);
    LaterTransitive(s, u, Apply(s, Refuse));
  }

  lemma LaterByShutdown(s: State)
    requires Inv(s)
    ensures Later(s, Apply(s, CallShutdown))
  {
    if s.sdk.Some? && s.stopping.None? {
      var n := s.sdk.value;
      var u := s.(sdk := None, owned := None, parts := s.parts + [Part(None, [])]);
      assert Grows(s.parts, u.parts);
      LaterWhereSame(s, u);
      LaterByFence(u, n, [[|s.parts|], s.starts[n].pipelines, s.starts[n].releases]);
      LaterTransitive(s, u, Apply(s, CallShutdown));
    }
  }

  lemma LaterByReleased(s: State, part: nat, forTier: bool)
    requires part < |s.parts| && s.parts[part].settling.None?
    ensures Later(s, Released(s, part, forTier))
  {
    LaterWhereSame(s, Released(s, part, forTier));
  }

  lemma LaterByAwaiting(s: State, fence: nat, p: Promise)
    requires fence < |s.fences| && !s.fences[fence].done
    ensures Later(s, Awaiting(s, fence, p))
  {
  }

  lemma LaterByInvoke(s: State)
    requires Inv(s) && Enabled(s, InvokeNext)
    ensures Later(s, Apply(s, InvokeNext))
  {
    assert FrameOk(s.stack, |s.stack| - 1, s.parts, s.fences, s.building, s.stopping);
    var fence := Top(s).value.fence;
    var part := CurrentTier(s.fences[fence])[|s.fences[fence].awaited|];
    if s.parts[part].settling.Some? {
      LaterByAwaiting(s, fence, Promise(part, s.parts[part].settling.value));
    } else {
      LaterByReleased(s, part, true);
    }
  }

  lemma LaterByBack(s: State, threw: bool)
    requires Inv(s) && Enabled(s, Return(threw))
    ensures Later(s, Back(s, threw))
  {
    assert FrameOk(s.stack, |s.stack| - 1, s.parts, s.fences, s.building, s.stopping);
    LaterWhereSame(s, Back(s, threw));
  }

  lemma LaterByReturn(s: State, threw: bool)
    requires Inv(s) && Enabled(s, Return(threw))
    ensures Later(s, Apply(s, Return(threw)))
  {
    LaterByBack(s, threw);
    if Top(s).value.forTier {
      KeptByReturned(s, threw);
      ReturnedToTier(s, threw);
      var p := Promise(Top(s).value.part, Top(s).value.run);
      LaterByAwaiting(Back(s, threw), Top(Pop(s)).value.fence, p);
      LaterTransitive(s, Back(s, threw), Apply(s, Return(threw)));
    }
  }

  lemma LaterBySettle(s: State, p: Promise, ok: bool)
    requires Enabled(s, Settle(p, ok))
    ensures Later(s, Apply(s, Settle(p, ok)))
  {
    LaterWhereSame(s, Apply(s, Settle(p, ok)));
  }

  lemma LaterByTierSettled(s: State)
    requires Inv(s) && Enabled(s, TierSettled)
    ensures Later(s, Apply(s, TierSettled))
  {
  }

  lemma LaterByInit(s: State, enabled: bool)
    ensures Later(s, Apply(s, CallInit(enabled)))
  {
  }

  lemma LaterByControl(s: State, step: Step)
    requires Inv(s) && Enabled(s, step)
    requires step.CallInit? || step.Own? || step.Defer? || step.Commit? || step.Activate? || step.Publish?
             || step.Refuse? || step.CallShutdown?
    ensures Later(s, Apply(s, step))
  {
    match step
    case CallInit(enabled) => LaterByInit(s, enabled);
    case Refuse => LaterByRefuse(s);
    case CallShutdown => LaterByShutdown(s);
    case _ => LaterByBuild(s, step);
  }

  lemma LaterByPop(s: State, step: Step)
    requires Enabled(s, step) && (step.Unwind? || step.AwaitTier?)
    ensures Later(s, Apply(s, step))
  {
    LaterWhereSame(s, Apply(s, step));
  }

  lemma LaterByRelease(s: State, part: nat)
    requires Inv(s) && Enabled(s, CallRelease(part))
    ensures Later(s, Apply(s, CallRelease(part)))
  {
    if s.parts[part].settling.None? { LaterByReleased(s, part, false); } else { LaterWhereSame(s, s); }
  }

  /** A step changes nothing that is settled, sealed or over. */
  lemma StepIsLater(s: State, step: Step)
    requires Inv(s) && Enabled(s, step)
    ensures Later(s, Apply(s, step))
  {
    match step
    case Unwind => LaterByPop(s, step);
    case CallRelease(part) => LaterByRelease(s, part);
    case InvokeNext => LaterByInvoke(s);
    case AwaitTier => LaterByPop(s, step);
    case Return(threw) => LaterByReturn(s, threw);
    case Settle(p, ok) => LaterBySettle(s, p, ok);
    case TierSettled => LaterByTierSettled(s);
    case _ => LaterByControl(s, step);
  }

  // ----- leading from one state to another

  ghost predicate Leads(s: State, t: State) {
    exists steps :: RunFrom(s, steps, t)
  }

  lemma {:induction false} RunThen(s: State, steps: seq<Step>, t: State, more: seq<Step>, u: State)
    requires RunFrom(s, steps, t) && RunFrom(t, more, u)
    ensures RunFrom(s, steps + more, u)
    decreases |steps|
  {
    if steps == [] {
      assert steps + more == more;
    } else {
      RunThen(Apply(s, steps[0]), steps[1..], t, more, u);
      assert (steps + more)[1..] == steps[1..] + more;
    }
  }

  lemma LeadsThen(s: State, t: State, u: State)
    requires Leads(s, t) && Leads(t, u)
    ensures Leads(s, u)
  {
    var steps :| RunFrom(s, steps, t);
    var more :| RunFrom(t, more, u);
    RunThen(s, steps, t, more, u);
  }

  /** A state reached by the program's own steps, later and still sound. */
  ghost predicate Goes(s: State, t: State) {
    Inv(t) && Leads(s, t) && Later(s, t)
  }

  lemma GoesNowhere(s: State)
    requires Inv(s)
    ensures Goes(s, s)
  {
    assert RunFrom(s, [], s);
  }

  lemma GoesByStep(s: State, step: Step)
    requires Inv(s) && Enabled(s, step)
    ensures Goes(s, Apply(s, step))
  {
    StepKeeps(s, step);
    StepIsLater(s, step);
    assert [step][1..] == [];
    assert RunFrom(s, [step], Apply(s, step));
  }

  lemma GoesThen(s: State, t: State, u: State)
    requires Goes(s, t) && Goes(t, u)
    ensures Goes(s, u)
  {
    LeadsThen(s, t, u);
    LaterTransitive(s, t, u);
  }

  /** The module's variables and the starts are as they were. */
  ghost predicate SameControl(s: State, t: State) {
    t.sdk == s.sdk && t.owned == s.owned && t.building == s.building && t.stopping == s.stopping && t.starts == s.starts
  }

  // ----- the frames on the stack return

  lemma TierFacts(s: State)
    requires Inv(s) && Top(s).Some? && Top(s).value.InTier?
    ensures TierOnTop(s) && s.stopping == Some(Top(s).value.fence)
    ensures var f := s.fences[Top(s).value.fence]; |f.awaited| <= |CurrentTier(f)| && PartIds(CurrentTier(f), |s.parts|)
  {
    assert FrameOk(s.stack, |s.stack| - 1, s.parts, s.fences, s.building, s.stopping);
    assert FenceOk(s.fences[Top(s).value.fence], s.parts);
  }

  lemma RunCanReturn(s: State)
    requires Inv(s) && Top(s).Some? && Top(s).value.InRun?
    ensures Enabled(s, Return(false))
    ensures Top(s).value.forTier ==>
              Top(Pop(s)).Some? && s.stopping.Some? && Top(Pop(s)).value == InTier(s.stopping.value)
  {
    assert FrameOk(s.stack, |s.stack| - 1, s.parts, s.fences, s.building, s.stopping);
    if Top(s).value.forTier {
      var below := s.stack[|s.stack| - 2];
      assert FrameOk(s.stack, |s.stack| - 2, s.parts, s.fences, s.building, s.stopping);
      assert Top(Pop(s)) == Some(below);
    }
  }

  lemma RunReturns(s: State) returns (t: State)
    requires Inv(s) && Top(s).Some? && Top(s).value.InRun?
    ensures Goes(s, t) && SameControl(s, t) && t.stack == Pop(s).stack
    ensures Top(s).value.forTier ==>
              && Top(t).Some? && Top(t).value.InTier? && t.stopping.Some? && |t.fences| == |s.fences|
              && t.stopping.value < |t.fences|
              && t.fences[t.stopping.value].waited == s.fences[t.stopping.value].waited
              && |t.fences[t.stopping.value].awaited| == |s.fences[t.stopping.value].awaited| + 1
  {
    RunCanReturn(s);
    GoesByStep(s, Return(false));
    t := Apply(s, Return(false));
  }

  /** A member that gives the promise it keeps, or whose own shutdown begins. */
  lemma MemberCalled(s: State) returns (u: State)
    requires Inv(s) && Enabled(s, InvokeNext)
    ensures Goes(s, u) && SameControl(s, u) && u.stopping == Some(Top(s).value.fence)
    ensures if u.stack == s.stack then u.fences == Awaiting(s, Top(s).value.fence, MemberPromise(s)).fences
            else
              && u.fences == s.fences && Top(u).Some? && Top(u).value.InRun? && Top(u).value.forTier
              && Pop(u).stack == s.stack
  {
    TierFacts(s);
    GoesByStep(s, InvokeNext);
    u := Apply(s, InvokeNext);
  }

  ghost function MemberPromise(s: State): Promise
    requires Enabled(s, InvokeNext)
  {
    var f := s.fences[Top(s).value.fence];
    var part := CurrentTier(f)[|f.awaited|];
    Promise(part, if s.parts[part].settling.Some? then s.parts[part].settling.value else 0)
  }

  /** The next member of a tier is invoked, and gives its promise. */
  lemma MemberInvoked(s: State) returns (t: State)
    requires Inv(s) && Enabled(s, InvokeNext)
    ensures Goes(s, t) && SameControl(s, t) && t.stack == s.stack && |t.fences| == |s.fences|
    ensures var n := Top(s).value.fence;
            t.fences[n].waited == s.fences[n].waited && |t.fences[n].awaited| == |s.fences[n].awaited| + 1
  {
    var u := MemberCalled(s);
    if u.stack == s.stack {
      t := u;
    } else {
      t := RunReturns(u);
      GoesThen(s, u, t);
    }
  }

  lemma {:induction false} TierInvoked(s: State, left: nat) returns (t: State)
    requires Inv(s) && Top(s).Some? && Top(s).value.InTier? && TierOnTop(s)
    requires var f := s.fences[Top(s).value.fence]; |f.awaited| + left == |CurrentTier(f)|
    ensures Goes(s, t) && SameControl(s, t) && t.stack == Pop(s).stack && |t.fences| == |s.fences|
    ensures var n := Top(s).value.fence; t.fences[n].waited == s.fences[n].waited
    decreases left
  {
    TierFacts(s);
    if left == 0 {
      GoesByStep(s, AwaitTier);
      t := Apply(s, AwaitTier);
    } else {
      var u := MemberInvoked(s);
      TierFacts(u);
      assert FenceStays(s.fences[Top(s).value.fence], u.fences[Top(s).value.fence]);
      t := TierInvoked(u, left - 1);
      GoesThen(s, u, t);
    }
  }

  /** The rest of a tier is invoked, and waited for off the stack. */
  lemma TierReturns(s: State) returns (t: State)
    requires Inv(s) && Top(s).Some? && Top(s).value.InTier?
    ensures Goes(s, t) && SameControl(s, t) && t.stack == Pop(s).stack && |t.fences| == |s.fences|
    ensures s.stopping.Some? && s.stopping.value < |s.fences|
            && t.fences[s.stopping.value].waited == s.fences[s.stopping.value].waited
  {
    TierFacts(s);
    var f := s.fences[Top(s).value.fence];
    t := TierInvoked(s, |CurrentTier(f)| - |f.awaited|);
  }

  lemma {:induction false} Activated(s: State, left: nat) returns (t: State)
    requires Inv(s) && BuildingNow(s, Committing)
    requires var c := s.starts[|s.starts| - 1]; c.activated + left == c.activations
    ensures Goes(s, t) && t.stack == Pop(s).stack && !t.building && t.stopping == s.stopping
    decreases left
  {
    if left == 0 {
      GoesByStep(s, Publish);
      t := Apply(s, Publish);
    } else {
      GoesByStep(s, Activate);
      var u := Apply(s, Activate);
      t := Activated(u, left - 1);
      GoesThen(s, u, t);
    }
  }

  lemma CommitReturns(s: State) returns (t: State)
    requires Inv(s) && BuildingNow(s, Committing)
    ensures Goes(s, t) && t.stack == Pop(s).stack && !t.building && t.stopping == s.stopping
  {
    LastFacts(s);
    var c := s.starts[|s.starts| - 1];
    t := Activated(s, c.activations - c.activated);
  }

  lemma BuildFacts(s: State)
    requires Inv(s) && Top(s) == Some(InBuild)
    ensures s.starts != [] && s.starts[|s.starts| - 1].phase != Committed
  {
    assert FrameOk(s.stack, |s.stack| - 1, s.parts, s.fences, s.building, s.stopping);
  }

  lemma UnwindReturns(s: State) returns (t: State)
    requires Inv(s) && BuildingNow(s, Refused)
    ensures Goes(s, t) && t.stack == Pop(s).stack && !t.building && t.stopping == s.stopping
  {
    GoesByStep(s, Unwind);
    t := Apply(s, Unwind);
  }

  lemma BuildReturns(s: State) returns (t: State)
    requires Inv(s) && Top(s) == Some(InBuild)
    ensures Goes(s, t) && t.stack == Pop(s).stack && !t.building && t.stopping == s.stopping
  {
    BuildFacts(s);
    match s.starts[|s.starts| - 1].phase
    case Building =>
      GoesByStep(s, Commit);
      var u := Apply(s, Commit);
      t := CommitReturns(u);
      GoesThen(s, u, t);
    case Committing => t := CommitReturns(s);
    case Refused => t := UnwindReturns(s);
    case Committed =>
  }

  /** Every call on the stack can return, the tear-down in progress being the same. */
  lemma {:induction false} StackReturns(s: State) returns (t: State)
    requires Inv(s)
    ensures Goes(s, t) && t.stack == [] && t.stopping == s.stopping && (!s.building ==> SameControl(s, t))
    decreases |s.stack|
  {
    if s.stack == [] {
      GoesNowhere(s);
      t := s;
    } else {
      var u;
      match Top(s).value {
        case InBuild => u := BuildReturns(s);
        case InTier(_) => u := TierReturns(s);
        case InRun(_, _, _) => u := RunReturns(s);
      }
      assert FrameOk(s.stack, |s.stack| - 1, s.parts, s.fences, s.building, s.stopping);
      t := StackReturns(u);
      GoesThen(s, u, t);
    }
  }

  // ----- a tear-down settles

  lemma PromiseSettles(s: State, p: Promise) returns (t: State)
    requires Inv(s) && s.stack == [] && Known(s.parts, p)
    ensures Goes(s, t) && SameControl(s, t) && t.stack == [] && t.fences == s.fences && OutcomeOf(t, p) != Pending
  {
    if OutcomeOf(s, p) != Pending {
      GoesNowhere(s);
      t := s;
    } else {
      GoesByStep(s, Settle(p, true));
      t := Apply(s, Settle(p, true));
    }
  }

  lemma StaysSettled(s: State, t: State, p: Promise)
    requires Later(s, t) && OutcomeOf(s, p) != Pending
    ensures OutcomeOf(t, p) == OutcomeOf(s, p)
  {
    assert PartGrows(s.parts[p.part], t.parts[p.part]);
  }

  /** The first `n` promises a tier was given settle. */
  lemma {:induction false} PromisesSettle(s: State, f: nat, n: nat) returns (t: State)
    requires Inv(s) && s.stack == [] && s.stopping == Some(f) && f < |s.fences| && n <= |s.fences[f].awaited|
    ensures Goes(s, t) && SameControl(s, t) && t.stack == [] && t.fences == s.fences
    ensures forall i | 0 <= i < n :: OutcomeOf(t, s.fences[f].awaited[i]) != Pending
  {
    if n == 0 {
      GoesNowhere(s);
      t := s;
    } else {
      var u := PromisesSettle(s, f, n - 1);
      assert FenceOk(u.fences[f], u.parts);
      t := PromiseSettles(u, s.fences[f].awaited[n - 1]);
      GoesThen(s, u, t);
      forall i | 0 <= i < n - 1 ensures OutcomeOf(t, s.fences[f].awaited[i]) != Pending {
        StaysSettled(u, t, s.fences[f].awaited[i]);
      }
    }
  }

  /** What every promise of the tier has settled for is counted, and the next tier, if there is one, begins. */
  lemma TierCounted(s: State, f: nat) returns (t: State)
    requires Inv(s) && Enabled(s, TierSettled) && s.stopping == Some(f)
    ensures Goes(s, t) && t.sdk == s.sdk && t.owned == s.owned && t.building == s.building
    ensures f < |t.fences| && |t.fences[f].waited| == |s.fences[f].waited| + 1
    ensures t.stopping == if t.fences[f].done then None else Some(f)
    ensures t.stack == if t.fences[f].done then [] else [InTier(f)]
  {
    assert FenceOk(s.fences[f], s.parts);
    GoesByStep(s, TierSettled);
    t := Apply(s, TierSettled);
  }

  lemma NextTierReturns(s: State, f: nat) returns (t: State)
    requires Inv(s) && s.stack == [InTier(f)]
    ensures Goes(s, t) && SameControl(s, t) && t.stack == [] && t.stopping == Some(f)
    ensures f < |s.fences| == |t.fences| && t.fences[f].waited == s.fences[f].waited && !t.fences[f].done
  {
    TierFacts(s);
    assert Pop(s).stack == [];
    t := TierReturns(s);
  }

  lemma TierSettles(s: State, f: nat) returns (t: State)
    requires Inv(s) && s.stack == [] && s.stopping == Some(f) && f < |s.fences|
    ensures Goes(s, t) && t.stack == [] && t.sdk == s.sdk && t.owned == s.owned && t.building == s.building
    ensures f < |t.fences| && |t.fences[f].waited| == |s.fences[f].waited| + 1
    ensures t.stopping == if t.fences[f].done then None else Some(f)
  {
    assert FenceOk(s.fences[f], s.parts);
    var u := PromisesSettle(s, f, |s.fences[f].awaited|);
    var v := TierCounted(u, f);
    GoesThen(s, u, v);
    if v.fences[f].done {
      t := v;
    } else {
      t := NextTierReturns(v, f);
      GoesThen(s, v, t);
    }
  }

  lemma {:induction false} FenceSettles(s: State, f: nat, left: nat) returns (t: State)
    requires Inv(s) && s.stack == [] && s.stopping == Some(f) && f < |s.fences|
    requires |s.fences[f].waited| + left == |s.fences[f].tiers|
    ensures Goes(s, t) && t.stack == [] && t.sdk == s.sdk && t.owned == s.owned && t.building == s.building
    ensures t.stopping.None? && f < |t.fences| && t.fences[f].done
    decreases left
  {
    assert FenceOk(s.fences[f], s.parts);
    var u := TierSettles(s, f);
    assert FenceStays(s.fences[f], u.fences[f]);
    assert FenceOk(u.fences[f], u.parts);
    if u.fences[f].done {
      t := u;
    } else {
      t := FenceSettles(u, f, left - 1);
      GoesThen(s, u, t);
    }
  }

  // ----- what the calls bring about

  /** Nothing is kept, built or torn down: a start is accepted. */
  predicate Restartable(s: State) {
    s.sdk.None? && !s.building && s.stopping.None?
  }

  lemma StoppingSettles(s: State) returns (t: State)
    requires Inv(s) && s.stack == [] && s.stopping.Some?
    ensures Goes(s, t) && t.stack == [] && Restartable(t)
    ensures s.stopping.value < |t.fences| && t.fences[s.stopping.value].done
  {
    assert FenceOk(s.fences[s.stopping.value], s.parts);
    var f := s.fences[s.stopping.value];
    t := FenceSettles(s, s.stopping.value, |f.tiers| - |f.waited|);
  }

  /**
   * A call for a start begins a build, with an empty ledger, exactly when it is enabled and nothing is
   * kept, built or torn down; otherwise it changes nothing.
   */
  lemma InitBeginsIff(s: State, enabled: bool)
    ensures var t := Apply(s, CallInit(enabled));
            && (t != s <==> enabled && Restartable(s))
            && (t != s ==>
                  && BuildingNow(t, Building) && t.building && Pop(t).stack == s.stack
                  && t.starts == s.starts + [Construction(Building, [], [], 0, 0, None)]
                  && t == s.(building := true, starts := t.starts, stack := t.stack))
  {
    var t := Apply(s, CallInit(enabled));
    if enabled && Restartable(s) { assert |t.starts| == |s.starts| + 1; }
  }

  /**
   * A shutdown of a running SDK takes it and its ledger off the variables and publishes a fence of its start: first
   * the SDK's own shutdown, which has never run, then the pipelines, then the releases. Without one it does nothing.
   */
  lemma ShutdownTearsDown(s: State)
    requires Reachable(s)
    ensures var t := Apply(s, CallShutdown);
            if s.sdk.None? then t == s
            else
              && t.sdk.None? && t.owned.None? && t.stopping == Some(|s.fences|) && t.building == s.building
              && s.sdk.value < |s.starts| == |t.starts| && |t.fences| == |s.fences| + 1
              && t.parts == s.parts + [Part(None, [])]
              && t.starts[s.sdk.value].fence == Some(|s.fences|)
              && (forall f | 0 <= f < |s.fences| :: t.fences[f] == s.fences[f])
              && Top(t) == Some(InTier(|s.fences|)) && Pop(t).stack == s.stack
              && var f, c := t.fences[|s.fences|], s.starts[s.sdk.value];
                 && f.start == s.sdk.value && !f.done && f.waited == [] && f.awaited == []
                 && f.tiers == [[|s.parts|], c.pipelines, c.releases]
  {
    ReachableHolds(s);
  }

  /** Every part of one of the tiers of a teardown gave a promise that has settled. */
  ghost predicate AllWaitedFor(s: State, fence: nat, tiers: seq<seq<nat>>) {
    forall t, part | 0 <= t < |tiers| && part in tiers[t] :: WaitedFor(s, fence, part)
  }

  /**
   * From a running SDK a shutdown can always be brought to its end: then the SDK's own shutdown and every
   * pipeline and release of its start have run and settled, no call is left, and a start is accepted again.
   */
  lemma ShutdownSettles(s: State) returns (t: State)
    requires Reachable(s) && s.sdk.Some?
    ensures Leads(Apply(s, CallShutdown), t) && Reachable(t) && t.stack == [] && Restartable(t)
    ensures s.sdk.value < |s.starts|
    ensures var c := s.starts[s.sdk.value];
            AllWaitedFor(t, |s.fences|, [[|s.parts|], c.pipelines, c.releases])
    ensures Apply(t, CallInit(true)) != t
  {
    ReachableHolds(s);
    ShutdownTearsDown(s);
    var u := Apply(s, CallShutdown);
    StepKeeps(s, CallShutdown);
    var v := StackReturns(u);
    t := StoppingSettles(v);
    GoesThen(u, v, t);
    ReachableStep(s, CallShutdown);
    LeadsReachable(u, t);
    var f, c := |s.fences|, s.starts[s.sdk.value];
    assert FenceStays(u.fences[f], t.fences[f]);
    forall n, part | 0 <= n < 3 && part in t.fences[f].tiers[n] ensures WaitedFor(t, f, part) {
      DoneFenceWaited(t, f, n, part);
    }
    InitBeginsIff(t, true);
  }

  lemma LeadsReachable(s: State, t: State)
    requires Reachable(s) && Leads(s, t)
    ensures Reachable(t)
  {
    var steps :| RunFrom(INITIAL, steps, s);
    var more :| RunFrom(s, more, t);
    RunThen(INITIAL, steps, s, more, t);
  }

  /** Whatever has happened, the lifecycle can always go on to a state in which a start is accepted. */
  lemma AlwaysRestartable(s: State) returns (t: State)
    requires Reachable(s)
    ensures Leads(s, t) && t.stack == [] && Restartable(t) && Apply(t, CallInit(true)) != t
  {
    ReachableHolds(s);
    var u := StackReturns(s);
    if u.stopping.Some? {
      t := StoppingSettles(u);
      GoesThen(s, u, t);
    } else if u.sdk.Some? {
      LeadsReachable(s, u);
      t := ShutdownSettles(u);
      GoesByStep(u, CallShutdown);
      LeadsThen(u, Apply(u, CallShutdown), t);
      LeadsThen(s, u, t);
    } else {
      t := u;
    }
    InitBeginsIff(t, true);
  }

  // ----- what a build owns, and what its commit runs

  /** The parts a run's steps own, in order, as pipelines or as releases. */
  ghost function OwnedIn(s: State, steps: seq<Step>, pipeline: bool): seq<nat>
    decreases |steps|
  {
    if steps == [] || !Enabled(s, steps[0]) then []
    else (if steps[0] == Own(pipeline) then [|s.parts|] else [])
         + OwnedIn(Apply(s, steps[0]), steps[1..], pipeline)
  }

  /** How often a step is taken. */
  ghost function Taken(steps: seq<Step>, step: Step): nat {
    if steps == [] then 0 else (if steps[0] == step then 1 else 0) + Taken(steps[1..], step)
  }

  ghost predicate Newest(s: State, releases: seq<nat>, pipelines: seq<nat>, activations: nat, activated: nat) {
    && s.starts != []
    && var c := s.starts[|s.starts| - 1];
       && c.releases == releases && c.pipelines == pipelines && c.activations == activations && c.activated == activated
  }

  /** Until the next build begins, the newest ledger holds what it held and what was owned since, each part where it
   *  was owned into; and what was deferred, and run of it, is what was deferred and run since. */
  lemma {:induction false} LedgerIsWhatWasOwned(s: State, steps: seq<Step>, t: State)
    requires Inv(s) && s.starts != [] && RunFrom(s, steps, t) && |t.starts| == |s.starts|
    ensures var c := s.starts[|s.starts| - 1];
            Newest(t, c.releases + OwnedIn(s, steps, false), c.pipelines + OwnedIn(s, steps, true),
                   c.activations + Taken(steps, Defer), c.activated + Taken(steps, Activate))
    decreases |steps|
  {
    if steps != [] {
      var u := Apply(s, steps[0]);
      StepKeeps(s, steps[0]);
      RunKeeps(u, steps[1..], t);
      NeverFewerStarts(u, steps[1..], t);
      StepOwns(s, steps[0]);
      LedgerIsWhatWasOwned(u, steps[1..], t);
      var c := s.starts[|s.starts| - 1];
      Group(c.releases, if steps[0] == Own(false) then [|s.parts|] else [], OwnedIn(u, steps[1..], false));
      Group(c.pipelines, if steps[0] == Own(true) then [|s.parts|] else [], OwnedIn(u, steps[1..], true));
    }
  }

  lemma BuildStepOwns(s: State, step: Step)
    requires Inv(s) && s.starts != [] && Enabled(s, step)
    requires step.Own? || step.Defer? || step.Activate? || step.Commit? || step.Publish? || step.Refuse?
    ensures var c := s.starts[|s.starts| - 1];
            Newest(Apply(s, step), c.releases + (if step == Own(false) then [|s.parts|] else []),
                   c.pipelines + (if step == Own(true) then [|s.parts|] else []),
                   c.activations + (if step == Defer then 1 else 0), c.activated + (if step == Activate then 1 else 0))
    ensures |Apply(s, step).starts| == |s.starts|
  {
  }

  lemma OtherStepOwns(s: State, step: Step)
    requires Inv(s) && s.starts != [] && Enabled(s, step) && |Apply(s, step).starts| <= |s.starts|
    requires !step.Own? && !step.Defer? && !step.Activate? && !step.Commit? && !step.Publish? && !step.Refuse?
    ensures var c := s.starts[|s.starts| - 1];
            Newest(Apply(s, step), c.releases, c.pipelines, c.activations, c.activated)
    ensures |Apply(s, step).starts| == |s.starts|
  {
    if !step.CallShutdown? { OthersKeepStarts(s, step); }
  }

  lemma OthersKeepStarts(s: State, step: Step)
    requires Enabled(s, step) && |Apply(s, step).starts| <= |s.starts| && !step.CallShutdown?
    requires !step.Own? && !step.Defer? && !step.Activate? && !step.Commit? && !step.Publish? && !step.Refuse?
    ensures Apply(s, step).starts == s.starts
  {
  }

  lemma StepOwns(s: State, step: Step)
    requires Inv(s) && s.starts != [] && Enabled(s, step) && |Apply(s, step).starts| <= |s.starts|
    ensures var c := s.starts[|s.starts| - 1];
            Newest(Apply(s, step), c.releases + (if step == Own(false) then [|s.parts|] else []),
                   c.pipelines + (if step == Own(true) then [|s.parts|] else []),
                   c.activations + (if step == Defer then 1 else 0), c.activated + (if step == Activate then 1 else 0))
    ensures |Apply(s, step).starts| == |s.starts|
  {
    var c := s.starts[|s.starts| - 1];
    if step.Own? || step.Defer? || step.Activate? || step.Commit? || step.Publish? || step.Refuse? {
      BuildStepOwns(s, step);
    } else {
      assert c.releases + [] == c.releases && c.pipelines + [] == c.pipelines;
      OtherStepOwns(s, step);
    }
  }

  lemma {:induction false} NeverFewerStarts(s: State, steps: seq<Step>, t: State)
    requires Inv(s) && RunFrom(s, steps, t)
    ensures |t.starts| >= |s.starts|
    decreases |steps|
  {
    if steps != [] {
      StepKeeps(s, steps[0]);
      StepIsLater(s, steps[0]);
      NeverFewerStarts(Apply(s, steps[0]), steps[1..], t);
    }
  }

  // ----- how a promise settles

  /** The step is the promise's own settling, or its run throws. */
  predicate SettlesBy(s: State, step: Step, p: Promise) {
    match step
    case Settle(q, _) => q == p
    case Return(threw) =>
      threw && Top(s).Some? && Top(s).value.InRun? && Promise(Top(s).value.part, Top(s).value.run) == p
    case _ => false
  }

  lemma ReturnSettles(s: State, threw: bool, p: Promise)
    requires Inv(s) && Enabled(s, Return(threw)) && Known(s.parts, p)
    ensures OutcomeOf(Apply(s, Return(threw)), p) ==
            if SettlesBy(s, Return(threw), p) then Rejected else OutcomeOf(s, p)
    ensures SettlesBy(s, Return(threw), p) ==> OutcomeOf(s, p) == Pending
  {
    assert FrameOk(s.stack, |s.stack| - 1, s.parts, s.fences, s.building, s.stopping);
    ReturnedParts(s, threw);
    BackSettles(s, threw, p);
  }

  lemma ReturnedParts(s: State, threw: bool)
    requires Enabled(s, Return(threw))
    ensures Apply(s, Return(threw)).parts == Back(s, threw).parts
  {
  }

  lemma BackSettles(s: State, threw: bool, p: Promise)
    requires Enabled(s, Return(threw)) && Known(s.parts, p)
    ensures OutcomeOf(Back(s, threw), p) == if SettlesBy(s, Return(threw), p) then Rejected else OutcomeOf(s, p)
  {
  }

  lemma ReleasedSettlesNone(s: State, part: nat, forTier: bool, p: Promise)
    requires part < |s.parts| && s.parts[part].settling.None? && Known(s.parts, p)
    ensures OutcomeOf(Released(s, part, forTier), p) == OutcomeOf(s, p)
  {
  }

  lemma CallsSettleNone(s: State, step: Step, p: Promise)
    requires Enabled(s, step) && Known(s.parts, p) && (step.CallRelease? || step.InvokeNext?)
    ensures OutcomeOf(Apply(s, step), p) == OutcomeOf(s, p)
  {
    if step.CallRelease? {
      if s.parts[step.part].settling.None? { ReleasedSettlesNone(s, step.part, false, p); }
    } else {
      var f := s.fences[Top(s).value.fence];
      var part := CurrentTier(f)[|f.awaited|];
      if s.parts[part].settling.None? { ReleasedSettlesNone(s, part, true, p); }
    }
  }

  lemma OthersSettleNone(s: State, step: Step, p: Promise)
    requires Inv(s) && Enabled(s, step) && Known(s.parts, p) && !step.Return? && !step.Settle?
    ensures OutcomeOf(Apply(s, step), p) == OutcomeOf(s, p)
  {
    if step.CallRelease? || step.InvokeNext? { CallsSettleNone(s, step, p); }
  }

  /** A promise settles once: by its own settling, as that says, or rejected by its run throwing; by nothing else. */
  lemma SettlesOnlyBy(s: State, step: Step, p: Promise)
    requires Inv(s) && Enabled(s, step) && Known(s.parts, p)
    ensures OutcomeOf(Apply(s, step), p) ==
            if !SettlesBy(s, step, p) then OutcomeOf(s, p)
            else if step == Settle(p, true) then Fulfilled else Rejected
    ensures SettlesBy(s, step, p) ==> OutcomeOf(s, p) == Pending
  {
    if step.Return? {
      ReturnSettles(s, step.threw, p);
    } else if !step.Settle? {
      OthersSettleNone(s, step, p);
    }
  }
}
