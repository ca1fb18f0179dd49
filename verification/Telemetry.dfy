/**
 * The lifecycle of the telemetry SDK: starts, refusals and shutdowns that may call back in.
 * A state is the module's variables, the ownership ledgers, every fence ever published and the
 * call stack; a step is one thing the program or the code it calls may do next.
 */
module Telemetry {
  import opened Texts

  /** How the promise of one run of a part's real shutdown stands. */
  datatype Outcome = Pending | Fulfilled | Rejected

  /** One owned part. `settling` is what `releaseOnce` keeps: the run whose promise every later call gets. */
  datatype Part = Part(settling: Option<nat>, runs: seq<Outcome>)

  datatype Promise = Promise(part: nat, run: nat)

  datatype Phase = Building | Committing | Refused | Committed

  /** One start's ledger, how far it came, and the fence it was torn down behind. */
  datatype Construction = Construction(
    phase: Phase, releases: seq<nat>, pipelines: seq<nat>, activations: nat, activated: nat, fence: Option<nat>)

  /**
   * One teardown: its tiers, the promises each settled tier was waited on for, and those the
   * current tier has been given so far.
   */
  datatype Fence = Fence(
    start: nat, tiers: seq<seq<nat>>, waited: seq<seq<Promise>>, awaited: seq<Promise>, clean: bool, done: bool)

  /** A call that has not returned: a build, a tier being invoked, or a part's real shutdown. */
  datatype Frame = InBuild | InTier(fence: nat) | InRun(part: nat, run: nat, forTier: bool)

  datatype State = State(
    sdk: Option<nat>, owned: Option<nat>, building: bool, stopping: Option<nat>,
    starts: seq<Construction>, parts: seq<Part>, fences: seq<Fence>, stack: seq<Frame>)

  const INITIAL := State(None, None, false, None, [], [], [], [])

  datatype Step =
    | CallInit(enabled: bool)
    | Own(pipeline: bool)
    | Defer
    | Refuse
    | Commit
    | Activate
    | Publish
    | Unwind
    | CallShutdown
    | CallRelease(part: nat)
    | InvokeNext
    | AwaitTier
    | Return(threw: bool)
    | Settle(promise: Promise, ok: bool)
    | TierSettled

  // ----- reading a state

  function Top(s: State): Option<Frame> {
    if s.stack == [] then None else Some(s.stack[|s.stack| - 1])
  }

  function Pop(s: State): State
    requires s.stack != []
  {
    s.(stack := s.stack[..|s.stack| - 1])
  }

  predicate BuildingNow(s: State, phase: Phase) {
    Top(s) == Some(InBuild) && s.starts != [] && s.starts[|s.starts| - 1].phase == phase
  }

  /** The fence whose tier is being invoked on top of the stack. */
  predicate TierOnTop(s: State) {
    && Top(s).Some? && Top(s).value.InTier? && Top(s).value.fence < |s.fences|
    && |s.fences[Top(s).value.fence].waited| < |s.fences[Top(s).value.fence].tiers|
  }

  function CurrentTier(f: Fence): seq<nat>
    requires |f.waited| < |f.tiers|
  {
    f.tiers[|f.waited|]
  }

  function OutcomeOf(s: State, p: Promise): Outcome {
    if p.part < |s.parts| && p.run < |s.parts[p.part].runs| then s.parts[p.part].runs[p.run] else Pending
  }

  predicate AllSettled(s: State, ps: seq<Promise>) {
    forall i | 0 <= i < |ps| :: OutcomeOf(s, ps[i]) != Pending
  }

  predicate AllFulfilled(s: State, ps: seq<Promise>) {
    forall i | 0 <= i < |ps| :: OutcomeOf(s, ps[i]) == Fulfilled
  }

  /** Whether a run of `part` is on the stack. */
  predicate OnStack(stack: seq<Frame>, part: nat) {
    exists i | 0 <= i < |stack| :: stack[i].InRun? && stack[i].part == part
  }

  // ----- what may happen next

  /**
   * Calls come from code of any frame; the rest is the program's own next step in the frame on
   * top. A promise is seen to settle, and a tier to be settled, only when the stack is empty.
   */
  predicate Enabled(s: State, step: Step) {
    match step
    case CallInit(_) => true
    case Own(_) => BuildingNow(s, Building)
    case Defer => BuildingNow(s, Building)
    case Refuse => BuildingNow(s, Building)
    case Commit => BuildingNow(s, Building)
    case Activate =>
      && BuildingNow(s, Committing)
      && s.starts[|s.starts| - 1].activated < s.starts[|s.starts| - 1].activations
    case Publish =>
      && BuildingNow(s, Committing)
      && s.starts[|s.starts| - 1].activated == s.starts[|s.starts| - 1].activations
    case Unwind => BuildingNow(s, Refused)
    case CallShutdown => true
    case CallRelease(part) => part < |s.parts|
    case InvokeNext =>
      TierOnTop(s) && var f := s.fences[Top(s).value.fence];
        |f.awaited| < |CurrentTier(f)| && CurrentTier(f)[|f.awaited|] < |s.parts|
    case AwaitTier => TierOnTop(s) && var f := s.fences[Top(s).value.fence]; |f.awaited| == |CurrentTier(f)|
    case Return(_) =>
      && Top(s).Some? && Top(s).value.InRun? && Top(s).value.part < |s.parts|
      && Top(s).value.run < |s.parts[Top(s).value.part].runs|
      && (Top(s).value.forTier ==> TierOnTop(Pop(s)))
    case Settle(p, _) => s.stack == [] && p.part < |s.parts| && p.run < |s.parts[p.part].runs|
        && OutcomeOf(s, p) == Pending
    case TierSettled =>
      && s.stack == [] && s.stopping.Some? && s.stopping.value < |s.fences|
      && var f := s.fences[s.stopping.value];
         |f.waited| < |f.tiers| && |f.awaited| == |CurrentTier(f)| && AllSettled(s, f.awaited)
  }

  /** `fence`: published before anything of the teardown is called. */
  function Fenced(s: State, start: nat, tiers: seq<seq<nat>>): State
    requires start < |s.starts|
  {
    var f := |s.fences|;
    s.(stopping := Some(f),
       fences := s.fences + [Fence(start, tiers, [], [], true, false)],
       starts := s.starts[start := s.starts[start].(fence := Some(f))],
       stack := s.stack + [InTier(f)])
  }

  /** A part's `shutdown`, as `releaseOnce` made it: run unless a run's promise is already kept. */
  function Released(s: State, part: nat, forTier: bool): State
    requires part < |s.parts| && s.parts[part].settling.None?
  {
    var p := s.parts[part];
    s.(parts := s.parts[part := p.(runs := p.runs + [Pending])],
       stack := s.stack + [InRun(part, |p.runs|, forTier)])
  }

  function WithLast(s: State, c: Construction): State
    requires s.starts != []
  {
    s.(starts := s.starts[|s.starts| - 1 := c])
  }

  function Awaiting(s: State, fence: nat, p: Promise): State
    requires fence < |s.fences|
  {
    s.(fences := s.fences[fence := s.fences[fence].(awaited := s.fences[fence].awaited + [p])])
  }

  /** A part whose run has returned: that run's promise is kept, whatever was kept before. */
  function Returned(p: Part, run: nat, threw: bool): Part
    requires run < |p.runs|
  {
    p.(settling := Some(run), runs := if threw then p.runs[run := Rejected] else p.runs)
  }

  /** The real shutdown on top of the stack returns to its caller. */
  function Back(s: State, threw: bool): State
    requires Enabled(s, Return(threw))
  {
    var InRun(part, run, _) := Top(s).value;
    Pop(s).(parts := s.parts[part := Returned(s.parts[part], run, threw)])
  }

  function Apply(s: State, step: Step): State
    requires Enabled(s, step)
  {
    match step
    case CallInit(enabled) =>
      if !enabled || s.sdk.Some? || s.building || s.stopping.Some? then s
      else s.(building := true,
              starts := s.starts + [Construction(Building, [], [], 0, 0, None)],
              stack := s.stack + [InBuild])
    case Own(pipeline) =>
      var c := s.starts[|s.starts| - 1];
      var part := |s.parts|;
      WithLast(s.(parts := s.parts + [Part(None, [])]),
               if pipeline then c.(pipelines := c.pipelines + [part]) else c.(releases := c.releases + [part]))
    case Defer =>
      var c := s.starts[|s.starts| - 1];
      WithLast(s, c.(activations := c.activations + 1))
    case Refuse =>
      var c := s.starts[|s.starts| - 1];
      Fenced(WithLast(s, c.(phase := Refused)), |s.starts| - 1, [c.releases])
    case Commit => WithLast(s, s.starts[|s.starts| - 1].(phase := Committing))
    case Activate =>
      var c := s.starts[|s.starts| - 1];
      WithLast(s, c.(activated := c.activated + 1))
    case Publish =>
      var n := |s.starts| - 1;
      Pop(WithLast(s, s.starts[n].(phase := Committed))).(sdk := Some(n), owned := Some(n), building := false)
    case Unwind => Pop(s).(building := false)
    case CallShutdown =>
      if s.stopping.Some? || s.sdk.None? || s.owned.None? || s.owned.value >= |s.starts| then s
      else
        var c := s.starts[s.owned.value];
        var part := |s.parts|;
        Fenced(s.(sdk := None, owned := None, parts := s.parts + [Part(None, [])]),
               s.owned.value, [[part], c.pipelines, c.releases])
    case CallRelease(part) => if s.parts[part].settling.Some? then s else Released(s, part, false)
    case InvokeNext =>
      var fence := Top(s).value.fence;
      var part := CurrentTier(s.fences[fence])[|s.fences[fence].awaited|];
      if s.parts[part].settling.Some? then Awaiting(s, fence, Promise(part, s.parts[part].settling.value))
      else Released(s, part, true)
    case AwaitTier => Pop(s)
    case Return(threw) =>
      var InRun(part, run, forTier) := Top(s).value;
      if forTier then Awaiting(Back(s, threw), Top(Pop(s)).value.fence, Promise(part, run)) else Back(s, threw)
    case Settle(p, ok) =>
      var q := s.parts[p.part];
      s.(parts := s.parts[p.part := q.(runs := q.runs[p.run := if ok then Fulfilled else Rejected])])
    case TierSettled =>
      var n := s.stopping.value;
      var f := s.fences[n];
      var next := f.(waited := f.waited + [f.awaited], awaited := [], clean := f.clean && AllFulfilled(s, f.awaited));
      if |next.waited| < |f.tiers| then s.(fences := s.fences[n := next], stack := [InTier(n)])
      else s.(fences := s.fences[n := next.(done := true)], stopping := None)
  }

  // ----- runs

  /** The states of a run: one step after another from a state, each enabled where it is taken. */
  ghost predicate RunFrom(s: State, steps: seq<Step>, end: State)
    decreases |steps|
  {
    if steps == [] then end == s
    else Enabled(s, steps[0]) && RunFrom(Apply(s, steps[0]), steps[1..], end)
  }

  ghost predicate Reachable(s: State) {
    exists steps :: RunFrom(INITIAL, steps, s)
  }
}
