/** What holds in every reachable state of the telemetry lifecycle. */
module TelemetryProofs {
  import opened Texts
  import opened Telemetry

  // ----- the invariant, component by component

  ghost predicate PartIds(ids: seq<nat>, n: nat) {
    forall i | 0 <= i < |ids| :: ids[i] < n
  }

  ghost predicate Known(parts: seq<Part>, p: Promise) {
    p.part < |parts| && p.run < |parts[p.part].runs|
  }

  ghost predicate Settled(parts: seq<Part>, p: Promise) {
    Known(parts, p) && parts[p.part].runs[p.run] != Pending
  }

  ghost predicate Succeeded(parts: seq<Part>, p: Promise) {
    Known(parts, p) && parts[p.part].runs[p.run] == Fulfilled
  }

  /** Promises given by the first members of a tier, in its order. */
  ghost predicate PromisesOf(parts: seq<Part>, ps: seq<Promise>, tier: seq<nat>) {
    |ps| <= |tier| && forall i | 0 <= i < |ps| :: ps[i].part == tier[i] && Known(parts, ps[i])
  }

  /** A tier that was waited for: every member gave a promise, and each has settled. */
  ghost predicate TierWaited(parts: seq<Part>, ps: seq<Promise>, tier: seq<nat>) {
    |ps| == |tier| && forall i | 0 <= i < |ps| :: ps[i].part == tier[i] && Settled(parts, ps[i])
  }

  ghost predicate AllSucceeded(parts: seq<Part>, ps: seq<Promise>) {
    forall i | 0 <= i < |ps| :: Succeeded(parts, ps[i])
  }

  ghost predicate FenceOk(f: Fence, parts: seq<Part>) {
    && |f.waited| <= |f.tiers| && (f.done <==> |f.waited| == |f.tiers|)
    && (forall t | 0 <= t < |f.tiers| :: PartIds(f.tiers[t], |parts|))
    && (forall t | 0 <= t < |f.waited| :: TierWaited(parts, f.waited[t], f.tiers[t]))
    && (f.clean <==> forall t | 0 <= t < |f.waited| :: AllSucceeded(parts, f.waited[t]))
    && (!f.done ==> PromisesOf(parts, f.awaited, f.tiers[|f.waited|]))
  }

  ghost predicate FencesOk(fences: seq<Fence>, parts: seq<Part>) {
    forall f | 0 <= f < |fences| :: FenceOk(fences[f], parts)
  }

  /** A fence that tears a start down has its ledger, in the order its phase asks for. */
  ghost predicate TearsDown(start: Construction, c: nat, fences: seq<Fence>) {
    && start.fence.Some? && start.fence.value < |fences|
    && var f := fences[start.fence.value];
       f.start == c && (if start.phase == Refused then f.tiers == [start.releases]
                        else |f.tiers| == 3 && f.tiers[1] == start.pipelines && f.tiers[2] == start.releases)
  }

  ghost predicate StartOk(start: Construction, c: nat, last: bool, fences: seq<Fence>, n: nat, building: bool,
                          sdk: Option<nat>) {
    && PartIds(start.releases, n) && PartIds(start.pipelines, n)
    && start.activated <= start.activations
    && (start.fence.Some? ==> TearsDown(start, c, fences))
    && match start.phase
       case Building => building && last && start.fence.None? && start.activated == 0
       case Committing => building && last && start.fence.None?
       case Refused => start.fence.Some? && start.activated == 0
       case Committed => start.activated == start.activations && (start.fence.None? ==> sdk == Some(c))
  }

  ghost predicate StartsOk(starts: seq<Construction>, fences: seq<Fence>, n: nat, building: bool, sdk: Option<nat>) {
    forall c | 0 <= c < |starts| :: StartOk(starts[c], c, c == |starts| - 1, fences, n, building, sdk)
  }

  ghost predicate ControlOk(s: State) {
    && s.sdk == s.owned
    && (s.sdk.Some? ==>
          && s.stopping.None? && !s.building && s.sdk.value < |s.starts|
          && s.starts[s.sdk.value].phase == Committed && s.starts[s.sdk.value].fence.None?)
    && (s.stopping.Some? ==> s.stopping.value < |s.fences|)
    && (forall f | 0 <= f < |s.fences| :: s.fences[f].done <==> s.stopping != Some(f))
    && (s.building ==> && s.starts != []
                       && s.starts[|s.starts| - 1].phase != Committed
                       && (s.stopping.Some? <==> s.starts[|s.starts| - 1].phase == Refused))
  }

  /** The member of the current tier that is being invoked. */
  ghost predicate NextMember(fences: seq<Fence>, stopping: Option<nat>, part: nat) {
    && stopping.Some? && stopping.value < |fences|
    && var f := fences[stopping.value];
       |f.waited| < |f.tiers| && |f.awaited| < |f.tiers[|f.waited|]| && f.tiers[|f.waited|][|f.awaited|] == part
  }

  ghost predicate Running(parts: seq<Part>, part: nat, run: nat) {
    Known(parts, Promise(part, run)) && parts[part].runs[run] == Pending
  }

  ghost predicate FrameOk(stack: seq<Frame>, i: nat, parts: seq<Part>, fences: seq<Fence>, building: bool,
                          stopping: Option<nat>)
    requires i < |stack|
  {
    match stack[i]
    case InBuild => building
    case InTier(f) => stopping == Some(f)
    case InRun(p, r, forTier) =>
      Running(parts, p, r) && (forTier ==> i > 0 && stack[i - 1].InTier? && NextMember(fences, stopping, p))
  }

  ghost predicate FramesOk(stack: seq<Frame>, parts: seq<Part>, fences: seq<Fence>, building: bool,
                           stopping: Option<nat>) {
    forall i | 0 <= i < |stack| :: FrameOk(stack, i, parts, fences, building, stopping)
  }

  /** At most one build, at most one tier, and no run twice. */
  ghost predicate FramesApart(stack: seq<Frame>) {
    && (forall i, j | 0 <= i < j < |stack| :: !(stack[i].InBuild? && stack[j].InBuild?))
    && (forall i, j | 0 <= i < j < |stack| :: !(stack[i].InTier? && stack[j].InTier?))
    && (forall i, j | 0 <= i < j < |stack| ::
          !(stack[i].InRun? && stack[j].InRun? && stack[i].part == stack[j].part && stack[i].run == stack[j].run))
  }

  ghost predicate HasTier(stack: seq<Frame>) {
    exists i | 0 <= i < |stack| :: stack[i].InTier?
  }

  ghost predicate HasBuild(stack: seq<Frame>) {
    exists i | 0 <= i < |stack| :: stack[i].InBuild?
  }

  /** Off the stack, a fence waits for all of its current tier. */
  ghost predicate WaitsForTier(s: State) {
    s.stopping.Some? && s.stopping.value < |s.fences| && !HasTier(s.stack) ==>
      var f := s.fences[s.stopping.value];
      |f.waited| < |f.tiers| && |f.awaited| == |f.tiers[|f.waited|]|
  }

  /** How many runs of a part are on the stack. */
  ghost function Active(stack: seq<Frame>, part: nat): nat {
    if stack == [] then 0
    else Active(stack[..|stack| - 1], part)
         + (if stack[|stack| - 1].InRun? && stack[|stack| - 1].part == part then 1 else 0)
  }

  /** While no promise is kept, every run so far is still on the stack. */
  ghost predicate PartOk(p: Part, active: nat) {
    && (p.settling.None? ==> |p.runs| == active)
    && (p.settling.Some? ==> p.settling.value < |p.runs|)
  }

  ghost predicate PartsOk(parts: seq<Part>, stack: seq<Frame>) {
    forall p | 0 <= p < |parts| :: PartOk(parts[p], Active(stack, p))
  }

  ghost predicate Inv(s: State) {
    && ControlOk(s)
    && FencesOk(s.fences, s.parts)
    && StartsOk(s.starts, s.fences, |s.parts|, s.building, s.sdk)
    && FramesOk(s.stack, s.parts, s.fences, s.building, s.stopping)
    && FramesApart(s.stack)
    && (s.building ==> HasBuild(s.stack))
    && WaitsForTier(s)
    && PartsOk(s.parts, s.stack)
  }

  lemma InitialHolds()
    ensures Inv(INITIAL)
  {
  }

  // ----- counting runs on the stack

  lemma {:induction false} ActiveOnStack(stack: seq<Frame>, part: nat)
    ensures Active(stack, part) > 0 <==> OnStack(stack, part)
  {
    if stack != [] {
      var n := |stack| - 1;
      ActiveOnStack(stack[..n], part);
      if OnStack(stack[..n], part) {
        var i :| 0 <= i < n && stack[..n][i].InRun? && stack[..n][i].part == part;
        assert stack[i].InRun? && stack[i].part == part;
      }
      if OnStack(stack, part) {
        var i :| 0 <= i < |stack| && stack[i].InRun? && stack[i].part == part;
        if i < n { assert stack[..n][i].InRun? && stack[..n][i].part == part; }
      }
    }
  }

  lemma ActivePush(stack: seq<Frame>, frame: Frame, part: nat)
    ensures Active(stack + [frame], part) == Active(stack, part) + (if frame.InRun? && frame.part == part then 1 else 0)
  {
    assert (stack + [frame])[..|stack|] == stack;
  }

  /** Frames that are not runs change no count. */
  lemma PartsOkPush(parts: seq<Part>, stack: seq<Frame>, frame: Frame)
    requires PartsOk(parts, stack) && !frame.InRun?
    ensures PartsOk(parts, stack + [frame])
  {
    forall p | 0 <= p < |parts| ensures PartOk(parts[p], Active(stack + [frame], p)) {
      ActivePush(stack, frame, p);
    }
  }

  lemma PartsOkPop(parts: seq<Part>, stack: seq<Frame>)
    requires stack != [] && PartsOk(parts, stack) && !stack[|stack| - 1].InRun?
    ensures PartsOk(parts, stack[..|stack| - 1])
  {
    forall p | 0 <= p < |parts| ensures PartOk(parts[p], Active(stack[..|stack| - 1], p)) {
      assert PartOk(parts[p], Active(stack, p));
    }
  }

  /** A part just owned has not run. */
  lemma PartsOkOwn(parts: seq<Part>, stack: seq<Frame>, fences: seq<Fence>, building: bool, stopping: Option<nat>)
    requires PartsOk(parts, stack) && FramesOk(stack, parts, fences, building, stopping)
    ensures PartsOk(parts + [Part(None, [])], stack)
  {
    ActiveOnStack(stack, |parts|);
    forall i | 0 <= i < |stack| ensures !(stack[i].InRun? && stack[i].part == |parts|) {
      assert FrameOk(stack, i, parts, fences, building, stopping);
    }
  }

  // ----- growing

  ghost predicate PartGrows(p: Part, q: Part) {
    |p.runs| <= |q.runs| && forall r | 0 <= r < |p.runs| && p.runs[r] != Pending :: q.runs[r] == p.runs[r]
  }

  /** Parts and runs are only added, and a settled promise stays as it settled. */
  ghost predicate Grows(parts: seq<Part>, more: seq<Part>) {
    |parts| <= |more| && forall p | 0 <= p < |parts| :: PartGrows(parts[p], more[p])
  }

  lemma SettledStays(parts: seq<Part>, more: seq<Part>, p: Promise)
    requires Grows(parts, more) && Known(parts, p)
    ensures Known(more, p)
    ensures Settled(parts, p) ==> Settled(more, p) && (Succeeded(more, p) <==> Succeeded(parts, p))
  {
    assert PartGrows(parts[p.part], more[p.part]);
  }

  lemma FenceOkGrows(f: Fence, parts: seq<Part>, more: seq<Part>)
    requires FenceOk(f, parts) && Grows(parts, more)
    ensures FenceOk(f, more)
  {
    forall t | 0 <= t < |f.waited|
      ensures TierWaited(more, f.waited[t], f.tiers[t])
              && (AllSucceeded(more, f.waited[t]) <==> AllSucceeded(parts, f.waited[t]))
    {
      TierWaitedGrows(parts, more, f.waited[t], f.tiers[t]);
    }
    if !f.done {
      forall i | 0 <= i < |f.awaited| ensures Known(more, f.awaited[i]) {
        SettledStays(parts, more, f.awaited[i]);
      }
    }
  }

  lemma TierWaitedGrows(parts: seq<Part>, more: seq<Part>, ps: seq<Promise>, tier: seq<nat>)
    requires Grows(parts, more) && TierWaited(parts, ps, tier)
    ensures TierWaited(more, ps, tier) && (AllSucceeded(more, ps) <==> AllSucceeded(parts, ps))
  {
    forall i | 0 <= i < |ps| ensures Settled(more, ps[i]) && (Succeeded(more, ps[i]) <==> Succeeded(parts, ps[i])) {
      SettledStays(parts, more, ps[i]);
    }
  }

  lemma FencesOkGrows(fences: seq<Fence>, parts: seq<Part>, more: seq<Part>)
    requires FencesOk(fences, parts) && Grows(parts, more)
    ensures FencesOk(fences, more)
  {
    forall f | 0 <= f < |fences| ensures FenceOk(fences[f], more) { FenceOkGrows(fences[f], parts, more); }
  }

  lemma FramesOkGrows(stack: seq<Frame>, parts: seq<Part>, more: seq<Part>, fences: seq<Fence>, building: bool,
                      stopping: Option<nat>)
    requires FramesOk(stack, parts, fences, building, stopping)
    requires forall p, r | Running(parts, p, r) :: Running(more, p, r)
    ensures FramesOk(stack, more, fences, building, stopping)
  {
    forall i | 0 <= i < |stack| ensures FrameOk(stack, i, more, fences, building, stopping) {
      assert FrameOk(stack, i, parts, fences, building, stopping);
    }
  }

  // ----- pushing and popping

  lemma FramesOkPush(stack: seq<Frame>, frame: Frame, parts: seq<Part>, fences: seq<Fence>, building: bool,
                     stopping: Option<nat>)
    requires FramesOk(stack, parts, fences, building, stopping)
    requires FrameOk(stack + [frame], |stack|, parts, fences, building, stopping)
    ensures FramesOk(stack + [frame], parts, fences, building, stopping)
  {
    forall i | 0 <= i < |stack| + 1 ensures FrameOk(stack + [frame], i, parts, fences, building, stopping) {
      if i < |stack| { assert FrameOk(stack, i, parts, fences, building, stopping); }
    }
  }

  lemma FramesOkPop(stack: seq<Frame>, parts: seq<Part>, fences: seq<Fence>, building: bool, stopping: Option<nat>)
    requires stack != [] && FramesOk(stack, parts, fences, building, stopping)
    ensures FramesOk(stack[..|stack| - 1], parts, fences, building, stopping)
  {
    var below := stack[..|stack| - 1];
    forall i | 0 <= i < |below| ensures FrameOk(below, i, parts, fences, building, stopping) {
      assert FrameOk(stack, i, parts, fences, building, stopping);
    }
  }

  lemma ApartPush(stack: seq<Frame>, frame: Frame)
    requires FramesApart(stack)
    requires frame.InBuild? ==> !HasBuild(stack)
    requires frame.InTier? ==> !HasTier(stack)
    requires frame.InRun? ==>
             forall i | 0 <= i < |stack| :: !(stack[i].InRun? && stack[i].part == frame.part
                                              && stack[i].run == frame.run)
    ensures FramesApart(stack + [frame])
  {
  }

  lemma HasPush(stack: seq<Frame>, frame: Frame)
    ensures HasBuild(stack + [frame]) <==> HasBuild(stack) || frame.InBuild?
    ensures HasTier(stack + [frame]) <==> HasTier(stack) || frame.InTier?
  {
    var more := stack + [frame];
    assert more[|stack|] == frame;
    if HasBuild(stack) {
      var i :| 0 <= i < |stack| && stack[i].InBuild?;
      assert more[i].InBuild?;
    }
    if HasTier(stack) {
      var i :| 0 <= i < |stack| && stack[i].InTier?;
      assert more[i].InTier?;
    }
  }

  /** The frames a state without a fence has: a build, and runs nobody waits for. */
  lemma NoTierUnlessStopping(s: State)
    requires Inv(s) && s.stopping.None?
    ensures !HasTier(s.stack)
    ensures forall i | 0 <= i < |s.stack| :: s.stack[i].InRun? ==> !s.stack[i].forTier
  {
    forall i | 0 <= i < |s.stack| ensures !s.stack[i].InTier? && (s.stack[i].InRun? ==> !s.stack[i].forTier) {
      assert FrameOk(s.stack, i, s.parts, s.fences, s.building, s.stopping);
    }
  }

  lemma NoBuildUnlessBuilding(s: State)
    requires Inv(s) && !s.building
    ensures !HasBuild(s.stack)
  {
    forall i | 0 <= i < |s.stack| ensures !s.stack[i].InBuild? {
      assert FrameOk(s.stack, i, s.parts, s.fences, s.building, s.stopping);
    }
  }

  // ----- starting

  lemma KeptByInit(s: State, enabled: bool)
    requires Inv(s)
    ensures Inv(Apply(s, CallInit(enabled)))
  {
    var t := Apply(s, CallInit(enabled));
    if t != s {
      NoBuildUnlessBuilding(s);
      PartsOkPush(s.parts, s.stack, InBuild);
      assert FramesOk(s.stack, s.parts, s.fences, true, s.stopping) by {
        forall i | 0 <= i < |s.stack| ensures FrameOk(s.stack, i, s.parts, s.fences, true, s.stopping) {
          assert FrameOk(s.stack, i, s.parts, s.fences, s.building, s.stopping);
        }
      }
      FramesOkPush(s.stack, InBuild, s.parts, s.fences, true, s.stopping);
      ApartPush(s.stack, InBuild);
      HasPush(s.stack, InBuild);
      forall c | 0 <= c < |t.starts| ensures StartOk(t.starts[c], c, c == |t.starts| - 1, t.fences, |t.parts|,
                                                     t.building, t.sdk) {
        if c < |s.starts| {
          assert StartOk(s.starts[c], c, c == |s.starts| - 1, s.fences, |s.parts|, s.building, s.sdk);
        }
      }
    }
  }

  /** The ledger of the start being built may change while it is being built. */
  lemma KeptByLast(s: State, c: Construction)
    requires Inv(s) && s.building && s.stopping.None? && c.fence.None? && (c.phase == Building || c.phase == Committing)
    requires PartIds(c.releases, |s.parts|) && PartIds(c.pipelines, |s.parts|)
    requires c.activated <= c.activations && (c.phase == Building ==> c.activated == 0)
    ensures Inv(WithLast(s, c))
  {
    var t := WithLast(s, c);
    forall i | 0 <= i < |t.starts| ensures StartOk(t.starts[i], i, i == |t.starts| - 1, t.fences, |t.parts|,
                                                   t.building, t.sdk) {
      if i < |s.starts| - 1 {
        assert StartOk(s.starts[i], i, i == |s.starts| - 1, s.fences, |s.parts|, s.building, s.sdk);
      }
    }
  }

  lemma KeptByNewPart(s: State)
    requires Inv(s)
    ensures Inv(s.(parts := s.parts + [Part(None, [])]))
  {
    var more := s.parts + [Part(None, [])];
    assert Grows(s.parts, more);
    FencesOkGrows(s.fences, s.parts, more);
    PartsOkOwn(s.parts, s.stack, s.fences, s.building, s.stopping);
    FramesOkGrows(s.stack, s.parts, more, s.fences, s.building, s.stopping);
    forall c | 0 <= c < |s.starts| ensures StartOk(s.starts[c], c, c == |s.starts| - 1, s.fences, |more|, s.building,
                                                   s.sdk) {
      assert StartOk(s.starts[c], c, c == |s.starts| - 1, s.fences, |s.parts|, s.building, s.sdk);
    }
  }

  /** Facts about the start on top of the stack while it is built. */
  lemma LastFacts(s: State)
    requires Inv(s) && Top(s) == Some(InBuild) && s.starts != []
    ensures s.building
    ensures var n := |s.starts| - 1; StartOk(s.starts[n], n, true, s.fences, |s.parts|, s.building, s.sdk)
    ensures s.starts[|s.starts| - 1].phase != Refused ==> s.stopping.None?
  {
    assert FrameOk(s.stack, |s.stack| - 1, s.parts, s.fences, s.building, s.stopping);
    var n := |s.starts| - 1;
    assert StartOk(s.starts[n], n, n == |s.starts| - 1, s.fences, |s.parts|, s.building, s.sdk);
  }

  lemma KeptByBuild(s: State, step: Step)
    requires Inv(s) && Enabled(s, step) && (step.Own? || step.Defer? || step.Commit? || step.Activate?)
    ensures Inv(Apply(s, step))
  {
    LastFacts(s);
    var c := s.starts[|s.starts| - 1];
    match step
    case Own(pipeline) =>
      KeptByNewPart(s);
      var part := |s.parts|;
      KeptByLast(s.(parts := s.parts + [Part(None, [])]),
                 if pipeline then c.(pipelines := c.pipelines + [part]) else c.(releases := c.releases + [part]));
    case Defer => KeptByLast(s, c.(activations := c.activations + 1));
    case Commit => KeptByLast(s, c.(phase := Committing));
    case Activate => KeptByLast(s, c.(activated := c.activated + 1));
    case _ =>
  }

  /** The build's frame is popped: none is left below it. */
  lemma PopBuild(s: State)
    requires Inv(s) && Top(s) == Some(InBuild)
    ensures var below := s.stack[..|s.stack| - 1];
            && FramesOk(below, s.parts, s.fences, false, s.stopping) && FramesApart(below)
            && PartsOk(s.parts, below) && (HasTier(below) <==> HasTier(s.stack))
  {
    var n := |s.stack| - 1;
    var below := s.stack[..n];
    assert s.stack == below + [InBuild];
    HasPush(below, InBuild);
    PartsOkPop(s.parts, s.stack);
    assert s.stack[n].InBuild?;
    forall i | 0 <= i < n ensures FrameOk(below, i, s.parts, s.fences, false, s.stopping) {
      assert FrameOk(s.stack, i, s.parts, s.fences, s.building, s.stopping);
    }
  }

  lemma KeptByPublish(s: State)
    requires Inv(s) && Enabled(s, Publish)
    ensures Inv(Apply(s, Publish))
  {
    var t := Apply(s, Publish);
    LastFacts(s);
    PopBuild(s);
    forall c | 0 <= c < |t.starts| ensures StartOk(t.starts[c], c, c == |t.starts| - 1, t.fences, |t.parts|,
                                                   t.building, t.sdk) {
      assert StartOk(s.starts[c], c, c == |s.starts| - 1, s.fences, |s.parts|, s.building, s.sdk);
    }
  }

  lemma KeptByUnwind(s: State)
    requires Inv(s) && Enabled(s, Unwind)
    ensures Inv(Apply(s, Unwind))
  {
    var t := Apply(s, Unwind);
    LastFacts(s);
    PopBuild(s);
    forall c | 0 <= c < |t.starts| ensures StartOk(t.starts[c], c, c == |t.starts| - 1, t.fences, |t.parts|,
                                                   t.building, t.sdk) {
      assert StartOk(s.starts[c], c, c == |s.starts| - 1, s.fences, |s.parts|, s.building, s.sdk);
    }
  }

  // ----- a fence is published

  lemma KeptByFence(s: State, start: nat, tiers: seq<seq<nat>>)
    requires start < |s.starts| && s.stopping.None? && s.sdk.None? && s.owned.None?
    requires tiers != [] && forall t | 0 <= t < |tiers| :: PartIds(tiers[t], |s.parts|)
    requires FencesOk(s.fences, s.parts) && FramesApart(s.stack) && PartsOk(s.parts, s.stack)
    requires FramesOk(s.stack, s.parts, s.fences, s.building, s.stopping) && (s.building ==> HasBuild(s.stack))
             && !HasTier(s.stack)
    requires forall f | 0 <= f < |s.fences| :: s.fences[f].done
    requires s.building ==> start == |s.starts| - 1 && s.starts[start].phase == Refused
    requires s.starts[start].phase == Refused || s.starts[start].phase == Committed
    requires s.starts[start].phase == Refused ==> s.starts[start].activated == 0 && tiers == [s.starts[start].releases]
    requires s.starts[start].phase == Committed ==>
               s.starts[start].activated == s.starts[start].activations
               && |tiers| == 3 && tiers[1] == s.starts[start].pipelines && tiers[2] == s.starts[start].releases
    requires PartIds(s.starts[start].releases, |s.parts|) && PartIds(s.starts[start].pipelines, |s.parts|)
    requires s.starts[start].activated <= s.starts[start].activations
    requires forall c | 0 <= c < |s.starts| && c != start ::
               StartOk(s.starts[c], c, c == |s.starts| - 1, s.fences, |s.parts|, s.building, s.sdk)
    ensures Inv(Fenced(s, start, tiers))
  {
    var t := Fenced(s, start, tiers);
    var f := |s.fences|;
    PartsOkPush(s.parts, s.stack, InTier(f));
    ApartPush(s.stack, InTier(f));
    HasPush(s.stack, InTier(f));
    assert FramesOk(s.stack, s.parts, t.fences, s.building, t.stopping) by {
      forall i | 0 <= i < |s.stack| ensures FrameOk(s.stack, i, s.parts, t.fences, s.building, t.stopping) {
        assert FrameOk(s.stack, i, s.parts, s.fences, s.building, s.stopping);
        assert !s.stack[i].InTier?;
      }
    }
    FramesOkPush(s.stack, InTier(f), s.parts, t.fences, s.building, t.stopping);
    assert FenceOk(t.fences[f], t.parts);
    forall c | 0 <= c < |t.starts| ensures StartOk(t.starts[c], c, c == |t.starts| - 1, t.fences, |t.parts|,
                                                   t.building, t.sdk) {
      if c != start { assert StartOk(s.starts[c], c, c == |s.starts| - 1, s.fences, |s.parts|, s.building, s.sdk); }
    }
  }

  lemma KeptByRefuse(s: State)
    requires Inv(s) && Enabled(s, Refuse)
    ensures Inv(Apply(s, Refuse))
  {
    LastFacts(s);
    NoTierUnlessStopping(s);
    var n := |s.starts| - 1;
    var c := s.starts[n];
    var r := WithLast(s, c.(phase := Refused));
    forall i | 0 <= i < |r.starts| && i != n
      ensures StartOk(r.starts[i], i, i == |r.starts| - 1, r.fences, |r.parts|, r.building, r.sdk)
    {
      assert StartOk(s.starts[i], i, i == |s.starts| - 1, s.fences, |s.parts|, s.building, s.sdk);
    }
    KeptByFence(r, n, [c.releases]);
  }

  lemma KeptByShutdown(s: State)
    requires Inv(s)
    ensures Inv(Apply(s, CallShutdown))
  {
    if s.stopping.None? && s.sdk.Some? {
      var n := s.owned.value;
      var c := s.starts[n];
      assert StartOk(c, n, n == |s.starts| - 1, s.fences, |s.parts|, s.building, s.sdk);
      NoTierUnlessStopping(s);
      KeptByNewPart(s);
      var u := s.(parts := s.parts + [Part(None, [])]);
      var r := u.(sdk := None, owned := None);
      forall i | 0 <= i < |r.starts| && i != n
        ensures StartOk(r.starts[i], i, i == |r.starts| - 1, r.fences, |r.parts|, r.building, r.sdk)
      {
        assert StartOk(u.starts[i], i, i == |u.starts| - 1, u.fences, |u.parts|, u.building, u.sdk);
      }
      KeptByFence(r, n, [[|s.parts|], c.pipelines, c.releases]);
    }
  }

  // ----- a part's shutdown is called, and returns

  lemma RunningDistinct(s: State, part: nat)
    requires Inv(s) && part < |s.parts|
    ensures forall i | 0 <= i < |s.stack| && s.stack[i].InRun? && s.stack[i].part == part ::
              s.stack[i].run < |s.parts[part].runs|
  {
    forall i | 0 <= i < |s.stack| && s.stack[i].InRun?
        && s.stack[i].part == part ensures s.stack[i].run < |s.parts[part].runs| {
      assert FrameOk(s.stack, i, s.parts, s.fences, s.building, s.stopping);
    }
  }

  lemma KeptByReleased(s: State, part: nat, forTier: bool)
    requires Inv(s) && part < |s.parts| && s.parts[part].settling.None?
    requires forTier ==> s.stack != [] && s.stack[|s.stack| - 1].InTier? && NextMember(s.fences, s.stopping, part)
    ensures Inv(Released(s, part, forTier))
  {
    var t := Released(s, part, forTier);
    var frame := InRun(part, |s.parts[part].runs|, forTier);
    assert Grows(s.parts, t.parts);
    FencesOkGrows(s.fences, s.parts, t.parts);
    FramesOkGrows(s.stack, s.parts, t.parts, s.fences, s.building, s.stopping);
    FramesOkPush(s.stack, frame, t.parts, s.fences, s.building, s.stopping);
    RunningDistinct(s, part);
    ApartPush(s.stack, frame);
    HasPush(s.stack, frame);
    ActiveOnStack(s.stack, part);
    forall p | 0 <= p < |t.parts| ensures PartOk(t.parts[p], Active(t.stack, p)) {
      ActivePush(s.stack, frame, p);
      assert PartOk(s.parts[p], Active(s.stack, p));
    }
  }

  /** A fence's state may change while its tiers and its start stay. */
  lemma StartsOkFence(starts: seq<Construction>, fences: seq<Fence>, n: nat, f: Fence, parts: nat, building: bool,
                      sdk: Option<nat>)
    requires n < |fences| && f.start == fences[n].start && f.tiers == fences[n].tiers
    requires StartsOk(starts, fences, parts, building, sdk)
    ensures StartsOk(starts, fences[n := f], parts, building, sdk)
  {
    forall c | 0 <= c < |starts| ensures StartOk(starts[c], c, c == |starts| - 1, fences[n := f], parts, building,
                                                 sdk) {
      assert StartOk(starts[c], c, c == |starts| - 1, fences, parts, building, sdk);
    }
  }

  lemma FenceOkAwaiting(f: Fence, parts: seq<Part>, part: nat, run: nat)
    requires FenceOk(f, parts) && Known(parts, Promise(part, run))
    requires |f.waited| < |f.tiers| && |f.awaited| < |f.tiers[|f.waited|]| && f.tiers[|f.waited|][|f.awaited|] == part
    ensures FenceOk(f.(awaited := f.awaited + [Promise(part, run)]), parts)
  {
  }

  lemma KeptByAwaiting(s: State, part: nat, run: nat)
    requires Inv(s) && Known(s.parts, Promise(part, run)) && NextMember(s.fences, s.stopping, part)
    requires s.stack != [] && s.stack[|s.stack| - 1] == InTier(s.stopping.value)
    ensures Inv(Awaiting(s, s.stopping.value, Promise(part, run)))
  {
    var n := s.stopping.value;
    var t := Awaiting(s, n, Promise(part, run));
    FenceOkAwaiting(s.fences[n], s.parts, part, run);
    StartsOkFence(s.starts, s.fences, n, t.fences[n], |s.parts|, s.building, s.sdk);
    forall i | 0 <= i < |s.stack| ensures FrameOk(t.stack, i, t.parts, t.fences, t.building, t.stopping) {
      assert FrameOk(s.stack, i, s.parts, s.fences, s.building, s.stopping);
      assert s.stack[|s.stack| - 1].InTier?;
    }
  }

  lemma KeptByInvokeNext(s: State)
    requires Inv(s) && Enabled(s, InvokeNext)
    ensures Inv(Apply(s, InvokeNext))
  {
    var fence := Top(s).value.fence;
    assert FrameOk(s.stack, |s.stack| - 1, s.parts, s.fences, s.building, s.stopping);
    var part := CurrentTier(s.fences[fence])[|s.fences[fence].awaited|];
    assert PartOk(s.parts[part], Active(s.stack, part));
    if s.parts[part].settling.Some? {
      KeptByAwaiting(s, part, s.parts[part].settling.value);
    } else {
      KeptByReleased(s, part, true);
    }
  }

  /** Where only the parts and the stack change, the rest is kept. */
  lemma KeptWhereSame(s: State, t: State)
    requires Inv(s) && t == s.(parts := t.parts, stack := t.stack) && |t.parts| == |s.parts|
    requires FramesOk(t.stack, t.parts, t.fences, t.building, t.stopping) && FramesApart(t.stack)
    requires PartsOk(t.parts, t.stack) && FencesOk(t.fences, t.parts) && WaitsForTier(t)
    requires HasBuild(s.stack) ==> HasBuild(t.stack)
    ensures Inv(t)
  {
  }

  lemma ApartPop(stack: seq<Frame>)
    requires stack != [] && FramesApart(stack)
    ensures FramesApart(stack[..|stack| - 1])
  {
  }

  lemma KeptByAwaitTier(s: State)
    requires Inv(s) && Enabled(s, AwaitTier)
    ensures Inv(Apply(s, AwaitTier))
  {
    var t := Pop(s);
    assert FrameOk(s.stack, |s.stack| - 1, s.parts, s.fences, s.building, s.stopping);
    PartsOkPop(s.parts, s.stack);
    FramesOkPop(s.stack, s.parts, s.fences, s.building, s.stopping);
    ApartPop(s.stack);
    assert s.stack == t.stack + [Top(s).value];
    HasPush(t.stack, Top(s).value);
    KeptWhereSame(s, t);
  }

  lemma FramesOkReturned(s: State, threw: bool)
    requires Inv(s) && Enabled(s, Return(threw))
    ensures var t := Back(s, threw);
            FramesOk(t.stack, t.parts, t.fences, t.building, t.stopping) && FramesApart(t.stack)
  {
    var t := Back(s, threw);
    var n := |s.stack| - 1;
    assert s.stack[n] == Top(s).value;
    forall i | 0 <= i < |t.stack| ensures FrameOk(t.stack, i, t.parts, t.fences, t.building, t.stopping) {
      assert FrameOk(s.stack, i, s.parts, s.fences, s.building, s.stopping);
      assert s.stack[i] == t.stack[i];
    }
  }

  lemma PartsOkReturned(s: State, threw: bool)
    requires Inv(s) && Enabled(s, Return(threw))
    ensures var t := Back(s, threw); PartsOk(t.parts, t.stack)
  {
    var t := Back(s, threw);
    assert s.stack == t.stack + [Top(s).value];
    forall q | 0 <= q < |t.parts| ensures PartOk(t.parts[q], Active(t.stack, q)) {
      ActivePush(t.stack, Top(s).value, q);
      assert PartOk(s.parts[q], Active(s.stack, q));
    }
  }

  lemma FencesOkReturned(s: State, threw: bool)
    requires Inv(s) && Enabled(s, Return(threw))
    ensures var t := Back(s, threw); FencesOk(t.fences, t.parts)
  {
    var t := Back(s, threw);
    assert FrameOk(s.stack, |s.stack| - 1, s.parts, s.fences, s.building, s.stopping);
    assert Grows(s.parts, t.parts);
    FencesOkGrows(s.fences, s.parts, t.parts);
  }

  lemma KeptByReturned(s: State, threw: bool)
    requires Inv(s) && Enabled(s, Return(threw))
    ensures Inv(Back(s, threw))
  {
    var t := Back(s, threw);
    PartsOkReturned(s, threw);
    FencesOkReturned(s, threw);
    FramesOkReturned(s, threw);
    assert s.stack == t.stack + [Top(s).value];
    HasPush(t.stack, Top(s).value);
    KeptWhereSame(s, t);
  }

  lemma KeptByReturn(s: State, threw: bool)
    requires Inv(s) && Enabled(s, Return(threw))
    ensures Inv(Apply(s, Return(threw)))
  {
    KeptByReturned(s, threw);
    if Top(s).value.forTier {
      ReturnedToTier(s, threw);
      KeptByAwaiting(Back(s, threw), Top(s).value.part, Top(s).value.run);
    }
  }

  /** A run invoked for a tier returns to the fence that is up, as its next member. */
  lemma ReturnedToTier(s: State, threw: bool)
    requires Inv(s) && Enabled(s, Return(threw)) && Top(s).value.forTier && Inv(Back(s, threw))
    ensures var back := Back(s, threw);
            && NextMember(back.fences, back.stopping, Top(s).value.part)
            && Known(back.parts, Promise(Top(s).value.part, Top(s).value.run))
            && back.stack != [] && back.stack[|back.stack| - 1] == InTier(back.stopping.value)
            && Top(Pop(s)).value.fence == back.stopping.value
  {
    var back := Back(s, threw);
    assert FrameOk(s.stack, |s.stack| - 1, s.parts, s.fences, s.building, s.stopping);
    assert FrameOk(back.stack, |back.stack| - 1, back.parts, back.fences, back.building, back.stopping);
  }

  // ----- promises and tiers settle

  lemma KeptBySettle(s: State, p: Promise, ok: bool)
    requires Inv(s) && Enabled(s, Settle(p, ok))
    ensures Inv(Apply(s, Settle(p, ok)))
  {
    var t := Apply(s, Settle(p, ok));
    assert Grows(s.parts, t.parts);
    FencesOkGrows(s.fences, s.parts, t.parts);
    forall q | 0 <= q < |t.parts| ensures PartOk(t.parts[q], Active(t.stack, q)) {
      assert PartOk(s.parts[q], Active(s.stack, q));
    }
  }

  lemma FenceOkWaited(f: Fence, parts: seq<Part>)
    requires FenceOk(f, parts) && !f.done && |f.awaited| == |f.tiers[|f.waited|]|
    requires forall i | 0 <= i < |f.awaited| :: Settled(parts, f.awaited[i])
    ensures var more := f.waited + [f.awaited];
            FenceOk(f.(waited := more, awaited := [], clean := f.clean && AllSucceeded(parts, f.awaited),
                       done := |more| == |f.tiers|), parts)
  {
    var more := f.waited + [f.awaited];
    forall t | 0 <= t < |more| ensures TierWaited(parts, more[t], f.tiers[t]) {
      if t < |f.waited| { assert TierWaited(parts, f.waited[t], f.tiers[t]); }
    }
    assert (forall t | 0 <= t < |more| :: AllSucceeded(parts, more[t])) <==>
           (forall t | 0 <= t < |f.waited| :: AllSucceeded(parts, f.waited[t])) && AllSucceeded(parts, f.awaited) by {
      assert more[|f.waited|] == f.awaited;
      assert forall t | 0 <= t < |f.waited| :: more[t] == f.waited[t];
    }
  }

  lemma NextOk(s: State) returns (next: Fence)
    requires Inv(s) && Enabled(s, TierSettled)
    ensures var n := s.stopping.value;
            var f := s.fences[n];
            next == f.(waited := f.waited + [f.awaited], awaited := [], clean := f.clean && AllFulfilled(s, f.awaited),
                       done := |f.waited| + 1 == |f.tiers|)
    ensures FencesOk(s.fences[s.stopping.value := next], s.parts)
  {
    var f := s.fences[s.stopping.value];
    assert FenceOk(f, s.parts);
    forall i | 0 <= i < |f.awaited| ensures Settled(s.parts, f.awaited[i]) {
      assert OutcomeOf(s, f.awaited[i]) != Pending;
    }
    assert AllFulfilled(s, f.awaited) <==> AllSucceeded(s.parts, f.awaited) by {
      assert forall i | 0 <= i < |f.awaited| ::
               OutcomeOf(s, f.awaited[i]) == Fulfilled <==> Succeeded(s.parts, f.awaited[i]);
    }
    FenceOkWaited(f, s.parts);
    next := f.(waited := f.waited + [f.awaited], awaited := [], clean := f.clean && AllFulfilled(s, f.awaited),
               done := |f.waited| + 1 == |f.tiers|);
  }

  /** A tier is left and its invocation begins. */
  lemma KeptByNextTier(s: State, next: Fence)
    requires Inv(s) && s.stack == [] && s.stopping.Some? && s.stopping.value < |s.fences| && !next.done
    requires FencesOk(s.fences[s.stopping.value := next], s.parts)
    requires StartsOk(s.starts, s.fences[s.stopping.value := next], |s.parts|, s.building, s.sdk)
    ensures Inv(s.(fences := s.fences[s.stopping.value := next], stack := [InTier(s.stopping.value)]))
  {
    var n := s.stopping.value;
    var stack := [InTier(n)];
    PartsOkPush(s.parts, [], InTier(n));
    assert [] + [InTier(n)] == stack;
    assert stack[0].InTier?;
  }

  lemma KeptByTierSettled(s: State)
    requires Inv(s) && Enabled(s, TierSettled)
    ensures Inv(Apply(s, TierSettled))
  {
    var n := s.stopping.value;
    assert FenceOk(s.fences[n], s.parts);
    var next := NextOk(s);
    StartsOkFence(s.starts, s.fences, n, next, |s.parts|, s.building, s.sdk);
    if !next.done {
      KeptByNextTier(s, next);
    }
  }

  lemma KeptByRelease(s: State, part: nat)
    requires Inv(s) && Enabled(s, CallRelease(part))
    ensures Inv(Apply(s, CallRelease(part)))
  {
    if s.parts[part].settling.None? { KeptByReleased(s, part, false); }
  }

  /** Every step keeps the invariant. */
  lemma StepKeeps(s: State, step: Step)
    requires Inv(s) && Enabled(s, step)
    ensures Inv(Apply(s, step))
  {
    match step
    case CallInit(enabled) => KeptByInit(s, enabled);
    case Own(_) => KeptByBuild(s, step);
    case Defer => KeptByBuild(s, step);
    case Commit => KeptByBuild(s, step);
    case Activate => KeptByBuild(s, step);
    case Refuse => KeptByRefuse(s);
    case Publish => KeptByPublish(s);
    case Unwind => KeptByUnwind(s);
    case CallShutdown => KeptByShutdown(s);
    case CallRelease(part) => KeptByRelease(s, part);
    case InvokeNext => KeptByInvokeNext(s);
    case AwaitTier => KeptByAwaitTier(s);
    case Return(threw) => KeptByReturn(s, threw);
    case Settle(p, ok) => KeptBySettle(s, p, ok);
    case TierSettled => KeptByTierSettled(s);
  }

  lemma {:induction false} RunKeeps(s: State, steps: seq<Step>, end: State)
    requires Inv(s) && RunFrom(s, steps, end)
    ensures Inv(end)
    decreases |steps|
  {
    if steps != [] {
      StepKeeps(s, steps[0]);
      RunKeeps(Apply(s, steps[0]), steps[1..], end);
    }
  }

  lemma ReachableHolds(s: State)
    requires Reachable(s)
    ensures Inv(s)
  {
    var steps :| RunFrom(INITIAL, steps, s);
    InitialHolds();
    RunKeeps(INITIAL, steps, s);
  }

  // ----- what it means

  /** An SDK is kept exactly with its ledger, and never while a teardown is in progress. */
  lemma SdkHasItsLedger(s: State)
    requires Reachable(s)
    ensures s.sdk == s.owned
    ensures s.stopping.Some? ==> s.sdk.None?
    ensures s.sdk.Some? ==> s.sdk.value < |s.starts| && s.starts[s.sdk.value].phase == Committed && !s.building
  {
    ReachableHolds(s);
  }

  /** What tears a start down: its releases, and its pipelines too when it was committed. */
  predicate MustSettle(c: Construction, part: nat) {
    part in c.releases || (c.phase == Committed && part in c.pipelines)
  }

  /** A finished fence was given a promise by the part, and that promise has settled. */
  ghost predicate WaitedFor(s: State, fence: nat, part: nat) {
    && fence < |s.fences| && s.fences[fence].done
    && exists t, i :: 0 <= t < |s.fences[fence].waited| && 0 <= i < |s.fences[fence].waited[t]|
         && s.fences[fence].waited[t][i].part == part && Settled(s.parts, s.fences[fence].waited[t][i])
  }

  lemma DoneFenceWaited(s: State, f: nat, t: nat, part: nat)
    requires Inv(s) && f < |s.fences| && s.fences[f].done && t < |s.fences[f].tiers| && part in s.fences[f].tiers[t]
    ensures WaitedFor(s, f, part)
  {
    var fence := s.fences[f];
    assert FenceOk(fence, s.parts);
    assert TierWaited(s.parts, fence.waited[t], fence.tiers[t]);
    var i :| 0 <= i < |fence.tiers[t]| && fence.tiers[t][i] == part;
    assert fence.waited[t][i].part == part && Settled(s.parts, fence.waited[t][i]);
  }

  /**
   * No build begins before every earlier start's own fence is over, and was given a promise by every
   * release of the start, and every pipeline if it was committed, and each of these has settled.
   */
  lemma BuildBeginsClear(s: State, enabled: bool, c: nat, part: nat)
    requires Reachable(s) && Apply(s, CallInit(enabled)) != s
    requires c < |s.starts| && MustSettle(s.starts[c], part)
    ensures s.starts[c].fence.Some? && s.starts[c].fence.value < |s.fences|
            && s.fences[s.starts[c].fence.value].start == c
    ensures WaitedFor(s, s.starts[c].fence.value, part)
    ensures part < |s.parts|
            && (|s.parts[part].runs| <= 1 ==> |s.parts[part].runs| == 1 && s.parts[part].runs[0] != Pending)
  {
    ReachableHolds(s);
    var start := s.starts[c];
    assert StartOk(start, c, c == |s.starts| - 1, s.fences, |s.parts|, s.building, s.sdk);
    var f := start.fence.value;
    assert s.fences[f].done;
    if start.phase == Refused {
      DoneFenceWaited(s, f, 0, part);
    } else if part in start.releases {
      DoneFenceWaited(s, f, 2, part);
    } else {
      DoneFenceWaited(s, f, 1, part);
    }
  }

  /** A refused start has run none of what it deferred to its commit; a committed one, all of it. */
  lemma ActivationsOnlyOnCommit(s: State, c: nat)
    requires Reachable(s) && c < |s.starts|
    ensures s.starts[c].phase == Refused || s.starts[c].phase == Building ==> s.starts[c].activated == 0
    ensures s.starts[c].phase == Committed ==> s.starts[c].activated == s.starts[c].activations
  {
    ReachableHolds(s);
    assert StartOk(s.starts[c], c, c == |s.starts| - 1, s.fences, |s.parts|, s.building, s.sdk);
  }

  /**
   * Of every teardown: each tier before the current one was given a promise by each member and all
   * have settled; it is clean so far exactly when each of them succeeded; and it is over when no tier is left.
   */
  lemma TiersInOrder(s: State, f: nat)
    requires Reachable(s) && f < |s.fences|
    ensures var fence := s.fences[f];
            && |fence.waited| <= |fence.tiers|
            && (forall t | 0 <= t < |fence.waited| :: TierWaited(s.parts, fence.waited[t], fence.tiers[t]))
            && (fence.clean <==> forall t | 0 <= t < |fence.waited| :: AllSucceeded(s.parts, fence.waited[t]))
            && (fence.done <==> |fence.waited| == |fence.tiers|)
            && (fence.done <==> s.stopping != Some(f))
  {
    ReachableHolds(s);
    assert FenceOk(s.fences[f], s.parts);
  }

  /** A fence never sticks: once the stack is empty it waits for a promise, or its tier is settled. */
  lemma FenceNeverSticks(s: State)
    requires Reachable(s) && s.stopping.Some? && s.stack == []
    ensures s.stopping.value < |s.fences|
    ensures (exists i ::
               && 0 <= i < |s.fences[s.stopping.value].awaited|
               && Enabled(s, Settle(s.fences[s.stopping.value].awaited[i], true)))
            || Enabled(s, TierSettled)
  {
    ReachableHolds(s);
    var f := s.fences[s.stopping.value];
    assert FenceOk(f, s.parts);
    if !AllSettled(s, f.awaited) {
      var i :| 0 <= i < |f.awaited| && OutcomeOf(s, f.awaited[i]) == Pending;
      assert Known(s.parts, f.awaited[i]);
      assert Enabled(s, Settle(f.awaited[i], true));
    }
  }

  // ----- re-entry

  lemma {:induction false} RunExtends(s: State, steps: seq<Step>, end: State, step: Step)
    requires RunFrom(s, steps, end) && Enabled(end, step)
    ensures RunFrom(s, steps + [step], Apply(end, step))
    decreases |steps|
  {
    if steps == [] {
      assert [step][1..] == [];
      assert steps + [step] == [step];
    } else {
      RunExtends(Apply(s, steps[0]), steps[1..], end, step);
      assert (steps + [step])[1..] == steps[1..] + [step];
    }
  }

  lemma ReachableStep(s: State, step: Step)
    requires Reachable(s) && Enabled(s, step)
    ensures Reachable(Apply(s, step))
  {
    var steps :| RunFrom(INITIAL, steps, s);
    RunExtends(INITIAL, steps, s, step);
  }

  /** A start being built that owns one exporter, part 0. */
  lemma OneExporterOwned() returns (s: State)
    ensures Reachable(s)
    ensures s == State(None, None, true, None, [Construction(Building, [0], [], 0, 0, None)],
                       [Part(None, [])], [], [InBuild])
  {
    assert RunFrom(INITIAL, [], INITIAL);
    ReachableStep(INITIAL, CallInit(true));
    var s1 := Apply(INITIAL, CallInit(true));
    ReachableStep(s1, Own(false));
    var s2 := Apply(s1, Own(false));
    assert s2.starts[0].releases == [0];
    assert s2.starts == [Construction(Building, [0], [], 0, 0, None)];
    s := s2;
  }

  /** A committed start that owns one exporter, part 0. */
  lemma OneExporterRunning() returns (s: State)
    ensures Reachable(s)
    ensures s == State(Some(0), Some(0), false, None, [Construction(Committed, [0], [], 0, 0, None)],
                       [Part(None, [])], [], [])
  {
    var s2 := OneExporterOwned();
    ReachableStep(s2, Commit);
    var s3 := Apply(s2, Commit);
    assert s3.starts == [Construction(Committing, [0], [], 0, 0, None)];
    ReachableStep(s3, Publish);
    s := Apply(s3, Publish);
  }

  /**
   * The exporter's shutdown is called from outside, calls `shutdownTelemetry` back, and the SDK's own
   * shutdown, run by the teardown, reaches the exporter before the first call has returned: it is shut down twice.
   */
  lemma ReentryRunsTwice() returns (s: State)
    ensures Reachable(s) && |s.parts| == 2 && |s.parts[0].runs| == 2
  {
    var s0 := OneExporterRunning();
    ReachableStep(s0, CallRelease(0));
    var s1 := Apply(s0, CallRelease(0));
    assert s1.parts[0].runs == [Pending];
    assert s1.parts == [Part(None, [Pending])];
    ReachableStep(s1, CallShutdown);
    var s2 := Apply(s1, CallShutdown);
    assert s2.fences == [Fence(0, [[1], [], [0]], [], [], true, false)];
    assert s2.parts == [Part(None, [Pending]), Part(None, [])];
    assert Top(s2) == Some(InTier(0));
    ReachableStep(s2, InvokeNext);
    var s3 := Apply(s2, InvokeNext);
    assert s3.parts[0] == s2.parts[0] && s3.parts[1].runs == [Pending];
    ReachableStep(s3, CallRelease(0));
    s := Apply(s3, CallRelease(0));
  }
}
