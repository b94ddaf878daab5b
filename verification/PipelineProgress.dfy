/** Every run of `run_pipeline` ends, and how it can end. */
module PipelineProgress {
  import opened Runs
  import opened PipelineWiring
  import opened PipelineMachine
  import opened PipelineTheorems

  // ----- A measure that every step decreases -----

  function Cost(op: Op): nat {
    match op
    case Write(data, _) => |data|
    case Exit => 0
    case _ => 1
  }

  /** What `left` further calls can cost. */
  function Budget(l: Limits, left: nat): nat {
    if left == 0 then 0 else Budget(l, left - 1) + l.burst + 1
  }

  function SetupWeight(l: Limits): nat {
    4 + l.burst + Budget(l, l.calls)
  }

  function Weight(c: Config, l: Limits, k: Kid): nat {
    match k
    case Unborn => SetupWeight(l) + 2 * c.n + 3
    case Setup(_, todo) => SetupWeight(l) + |todo|
    case Running(_, op, left) => 2 + Cost(op) + Budget(l, left)
    case Zombie => 1
    case Reaped(_) => 0
  }

  function Weights(c: Config, l: Limits, kids: seq<Kid>): nat {
    if kids == [] then 0 else Weight(c, l, kids[0]) + Weights(c, l, kids[1..])
  }

  function PhaseWeight(c: Config, p: Phase): int {
    match p
    case Piping(k) => c.n - k + 4 * c.n
    case Forking(k) => c.n - k + 3 * c.n
    case Closing(todo) => |todo| + c.n
    case Waiting(k) => c.n - k
    case _ => 0
  }

  /** An upper bound on the number of steps still to come. */
  function Ahead(c: Config, l: Limits, s: State): int {
    PhaseWeight(c, s.phase) + Weights(c, l, s.kids)
  }

  lemma {:induction false} WeightsUpdate(c: Config, l: Limits, kids: seq<Kid>, i: nat, k: Kid)
    requires i < |kids|
    ensures Weights(c, l, kids[i := k]) == Weights(c, l, kids) - Weight(c, l, kids[i]) + Weight(c, l, k)
  {
    if i == 0 {
      assert kids[i := k][1..] == kids[1..];
    } else {
      assert kids[i := k][1..] == kids[1..][i - 1 := k];
      WeightsUpdate(c, l, kids[1..], i - 1, k);
    }
  }

  lemma {:induction false} ClosesLength(c: Config, m: nat)
    requires m <= |c.fd|
    ensures |Closes(c, m)| == |c.fd| - m
    decreases |c.fd| - m
  {
    if m < |c.fd| {
      ClosesLength(c, m + 1);
    }
  }

  /** A call that may follow costs no more than what is set aside for it. */
  lemma NextCosts(l: Limits, left: nat, next: Op)
    requires MayFollow(l, left, next)
    ensures Cost(next) + Budget(l, Fewer(left)) <= Budget(l, left)
  {
  }

  /** A child's own weight goes down with each of its calls. */
  lemma MoverAdvances(c: Config, l: Limits, s: State, step: Step)
    requires c.Valid() && Shaped(c, s) && KidsOk(c, l, s) && Enabled(c, l, s, step) && 0 <= Mover(step) < c.n
    ensures Weight(c, l, After(c, l, s, step).kids[Mover(step)]) < Weight(c, l, s.kids[Mover(step)])
  {
    assert KidOk(c, l, Mover(step), s.kids[Mover(step)]);
    match step
    case ReadPipe(i, _, next) => NextCosts(l, s.kids[i].left, next);
    case ReadEof(i, next) => NextCosts(l, s.kids[i].left, next);
    case ReadOther(i, next) => NextCosts(l, s.kids[i].left, next);
    case WritePipe(i, _, next) => NextCosts(l, s.kids[i].left, next);
    case WriteSocket(i, next) => NextCosts(l, s.kids[i].left, next);
    case WriteOther(i, next) => NextCosts(l, s.kids[i].left, next);
    case ShutFd(i, next) => NextCosts(l, s.kids[i].left, next);
    case _ =>
  }

  lemma CollectAdvances(c: Config, l: Limits, s: State, step: Step)
    requires Shaped(c, s) && ParentOk(c, s) && Enabled(c, l, s, step) && (step.WaitReaps? || step.HandlerReaps?)
    ensures Ahead(c, l, After(c, l, s, step)) < Ahead(c, l, s)
  {
    WeightsUpdate(c, l, s.kids, step.i, Reaped(step.WaitReaps?));
  }

  lemma CallerAdvances(c: Config, l: Limits, s: State, step: Step)
    requires Shaped(c, s) && ParentOk(c, s) && Enabled(c, l, s, step) && Mover(step) < 0
    ensures Ahead(c, l, After(c, l, s, step)) < Ahead(c, l, s)
  {
    if step.WaitReaps? || step.HandlerReaps? {
      CollectAdvances(c, l, s, step);
    } else if step.Fork? {
      ClosesLength(c, 0);
      WeightsUpdate(c, l, s.kids, s.phase.k, Setup(s.fds, ChildCalls(c, s.phase.k)));
    }
  }

  lemma StepAdvances(c: Config, l: Limits, s: State, step: Step)
    requires c.Valid() && Shaped(c, s) && ParentOk(c, s) && KidsOk(c, l, s) && Enabled(c, l, s, step)
    ensures Ahead(c, l, After(c, l, s, step)) < Ahead(c, l, s)
  {
    if Mover(step) < 0 {
      CallerAdvances(c, l, s, step);
    } else {
      MoverOnly(c, l, s, step);
      MoverAdvances(c, l, s, step);
      WeightsUpdate(c, l, s.kids, Mover(step), After(c, l, s, step).kids[Mover(step)]);
    }
  }

  lemma EveryNextAdvances(c: Config, l: Limits)
    ensures forall s, s' :: Inv(c, l, s) && Next(c, l, s, s') ==> Ahead(c, l, s') < Ahead(c, l, s)
  {
    forall s, s' | Inv(c, l, s) && Next(c, l, s, s') ensures Ahead(c, l, s') < Ahead(c, l, s) {
      var step :| Enabled(c, l, s, step) && s' == After(c, l, s, step);
      StepAdvances(c, l, s, step);
    }
  }

  lemma AheadPositive(c: Config, l: Limits)
    ensures forall s :: Inv(c, l, s) ==> Ahead(c, l, s) >= 0
  {
  }

  /** The number of steps a run can have. */
  function StepBound(c: Config, l: Limits): int {
    Ahead(c, l, Init(c))
  }

  /** After k steps, no more than the rest of the bound is still to come. */
  ghost predicate OnTime(c: Config, l: Limits, s: State, k: int) {
    Inv(c, l, s) && k + Ahead(c, l, s) <= StepBound(c, l)
  }

  lemma EveryNextOnTime(c: Config, l: Limits)
    ensures forall s, s', k :: OnTime(c, l, s, k) && Next(c, l, s, s') ==> OnTime(c, l, s', k + 1)
  {
    EveryNextInv(c, l);
    EveryNextAdvances(c, l);
  }

  lemma {:induction false} RunOnTime(c: Config, l: Limits, run: seq<State>, k: nat)
    requires c.Valid() && l.Valid() && IsRun(c, l, run) && k < |run|
    ensures OnTime(c, l, run[k], k)
  {
    if k == 0 {
      InitInv(c, l);
    } else {
      RunOnTime(c, l, run, k - 1);
      EveryNextOnTime(c, l);
      assert Next(c, l, run[k - 1], run[k]);
    }
  }

  /** Commands that make finitely many calls cannot keep a pipeline busy: under every schedule the
      run is no longer than a bound known beforehand, and where it can go no further the caller is
      past its waits and no command is alive. */
  lemma PipelineEnds(c: Config, l: Limits, run: seq<State>)
    requires c.Valid() && l.Valid() && IsRun(c, l, run)
    ensures |run| <= StepBound(c, l) + 1
    ensures (forall step :: !Enabled(c, l, LastState(run), step)) ==> Final(LastState(run))
  {
    RunOnTime(c, l, run, |run| - 1);
    AheadPositive(c, l);
    if !Final(LastState(run)) {
      SomeStep(c, l, LastState(run));
    }
  }

  // ----- Ways to continue a run -----

  /** Leave the collecting to whoever comes, to the handler, or to the waits. */
  datatype Collector = Anyone | Handler | Waits

  /** Only the given collector has collected so far. */
  ghost predicate CollectedBy(l: Limits, s: State, who: Collector) {
    match who
    case Anyone => true
    case Handler => l.handled && forall i :: 0 <= i < |s.kids| ==> s.kids[i] != Reaped(true)
    case Waits => forall i :: 0 <= i < |s.kids| ==> s.kids[i] != Reaped(false)
  }

  ghost predicate Collects(step: Step, who: Collector) {
    match who
    case Anyone => true
    case Handler => !step.WaitReaps?
    case Waits => !step.HandlerReaps?
  }

  lemma CollectedStep(c: Config, l: Limits, s: State, step: Step, who: Collector)
    requires Shaped(c, s) && Enabled(c, l, s, step) && CollectedBy(l, s, who) && Collects(step, who)
    ensures CollectedBy(l, After(c, l, s, step), who)
  {
    if Mover(step) >= 0 {
      MoverOnly(c, l, s, step);
    }
  }

  /** While a child is to be collected, the caller itself can go on. */
  lemma CallerStep(c: Config, l: Limits, s: State, i: nat) returns (step: Step)
    requires Inv(c, l, s) && !s.phase.Exited? && i < c.n && s.kids[i].Zombie?
    ensures Enabled(c, l, s, step) && !step.HandlerReaps?
  {
    match s.phase
    case Piping(_) => step := MakePipe;
    case Forking(_) => step := Fork;
    case Closing(_) => step := ParentClose;
    case Waiting(_) => step := WaitReaps(i);
    case Returned => WaitedBound(s.kids);
  }

  /** Whichever collector is chosen, a state that is not final can go on. */
  lemma StepFor(c: Config, l: Limits, s: State, who: Collector) returns (step: Step)
    requires Inv(c, l, s) && !Final(s) && CollectedBy(l, s, who)
    ensures Enabled(c, l, s, step) && Collects(step, who)
  {
    SomeStep(c, l, s);
    step :| Enabled(c, l, s, step);
    if who.Handler? && step.WaitReaps? {
      step := HandlerReaps(step.i);
    } else if who.Waits? && step.HandlerReaps? {
      step := CallerStep(c, l, s, step.i);
    }
  }

  lemma TakesStep(c: Config, l: Limits, run: seq<State>, step: Step)
    requires IsRun(c, l, run) && Shaped(c, LastState(run)) && Enabled(c, l, LastState(run), step)
    ensures IsRun(c, l, run + [After(c, l, LastState(run), step)])
  {
    assert Next(c, l, LastState(run), After(c, l, LastState(run), step));
  }

  /** Every run goes on to a final state, and any one collector can do all the collecting. */
  lemma {:induction false} RunEnds(c: Config, l: Limits, run: seq<State>, who: Collector) returns (full: seq<State>)
    requires c.Valid() && l.Valid() && IsRun(c, l, run) && CollectedBy(l, LastState(run), who)
    ensures IsRun(c, l, full) && run <= full && Final(LastState(full)) && CollectedBy(l, LastState(full), who)
    decreases Ahead(c, l, LastState(run))
  {
    var s := LastState(run);
    RunInv(c, l, run, |run| - 1);
    if Final(s) {
      full := run;
    } else {
      var step := StepFor(c, l, s, who);
      StepAdvances(c, l, s, step);
      AheadPositive(c, l);
      CollectedStep(c, l, s, step, who);
      TakesStep(c, l, run, step);
      full := RunEnds(c, l, run + [After(c, l, s, step)], who);
    }
  }

  lemma StartOfRun(c: Config, l: Limits, who: Collector)
    requires who.Handler? ==> l.handled
    ensures IsRun(c, l, [Init(c)]) && CollectedBy(l, LastState([Init(c)]), who)
  {
  }

  // ----- When run_pipeline always returns -----

  /** Every run that comes to an end has returned to the prompt. */
  ghost predicate AlwaysReturns(c: Config, l: Limits) {
    forall run :: IsRun(c, l, run) && Final(LastState(run)) ==> LastState(run).phase.Returned?
  }

  /** For every pipeline some run returns. */
  lemma CanReturn(c: Config, l: Limits) returns (run: seq<State>)
    requires c.Valid() && l.Valid()
    ensures IsRun(c, l, run) && Final(LastState(run)) && LastState(run).phase.Returned?
  {
    StartOfRun(c, l, Waits);
    run := RunEnds(c, l, [Init(c)], Waits);
    assert Reachable(c, l, LastState(run));
    ReturnsIffHandlerIdle(c, l, LastState(run));
  }

  /** With the handler in place, for every pipeline some run loses the session process: the handler
      collects all children, and the first wait finds none. */
  lemma CanLoseSession(c: Config, l: Limits) returns (run: seq<State>)
    requires c.Valid() && l.Valid() && l.handled
    ensures IsRun(c, l, run) && Final(LastState(run)) && LastState(run).phase.Exited?
  {
    StartOfRun(c, l, Handler);
    run := RunEnds(c, l, [Init(c)], Handler);
    if LastState(run).phase.Returned? {
      assert Reachable(c, l, LastState(run));
      ReturnCollectsAll(c, l, LastState(run));
    }
  }

  /** `run_pipeline` is certain to return exactly when no SIGCHLD handler collects behind its back. */
  lemma AlwaysReturnsIff(c: Config, l: Limits)
    requires c.Valid() && l.Valid()
    ensures AlwaysReturns(c, l) <==> !l.handled
  {
    if l.handled {
      var run := CanLoseSession(c, l);
    } else {
      forall run | IsRun(c, l, run) && Final(LastState(run)) ensures LastState(run).phase.Returned? {
        var s := LastState(run);
        assert Reachable(c, l, s);
        ReturnsIffHandlerIdle(c, l, s);
        RunInv(c, l, run, |run| - 1);
        forall i | 0 <= i < c.n ensures s.kids[i] != Reaped(false) {
          assert KidOk(c, l, i, s.kids[i]);
        }
      }
    }
  }
}

